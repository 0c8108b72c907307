/**
 The read-only queries the games program runs over the loaded list of
 games, each as a pure function of that list. Every query is a sequential
 stream pipeline; the stages come from `Seqs`, `Strings`, `Grouping` and
 `Sorting`.
 */
module Games {
  import opened Wrappers
  import opened Seqs
  import opened Strings
  import opened Grouping
  import opened Sorting
  import opened GameModel

  /** The competition tag of league games. */
  const BUNDESLIGA: string := "BUNDESLIGA"
  /** The tracked team. */
  const BAYERN: string := "FC Bayern Muenchen"
  /** The year the last query selects. */
  const YEAR: string := "2019"

  // ---------------------------------------------------------------------
  // Count by competition tag

  predicate IsBundesligaGame(g: Game) {
    Contains(g.info, BUNDESLIGA)
  }

  /** How many games are league games. */
  function BundesligaGameCount(games: seq<Game>): (n: nat)
    ensures n == |Positions(games, IsBundesligaGame)|
    ensures n <= |games|
    ensures games == [] ==> n == 0
  {
    FilterSizeIsPositions(games, IsBundesligaGame);
    |Filter(games, IsBundesligaGame)|
  }

  // ---------------------------------------------------------------------
  // Partition into home and away games

  /** The home games (true side) and the away games (false side). */
  function HomeAwaySplit(games: seq<Game>): (parts: Partition<Game>)
    ensures |parts.trueSide| + |parts.falseSide| == |games|
    ensures multiset(parts.trueSide) + multiset(parts.falseSide) == multiset(games)
    ensures forall i :: 0 <= i < |parts.trueSide| ==> parts.trueSide[i].isHomeGame
    ensures forall i :: 0 <= i < |parts.falseSide| ==> !parts.falseSide[i].isHomeGame
    ensures IsSubseq(parts.trueSide, games) && IsSubseq(parts.falseSide, games)
  {
    PartitionByProperties(games, IsHomeGame);
    PartitionBy(games, IsHomeGame)
  }

  // ---------------------------------------------------------------------
  // Group by outcome

  /** The games grouped by outcome. */
  function OutcomeGroups(games: seq<Game>): map<Result, seq<Game>> {
    GroupBy(games, ResultOf)
  }

  /** Each outcome group holds only games with that outcome, in list order,
      and an outcome is a key only when some game has it. */
  lemma {:induction false} OutcomeGroupsProperties(games: seq<Game>, r: Result)
    ensures forall i :: 0 <= i < |Lookup(OutcomeGroups(games), r)| ==> Lookup(OutcomeGroups(games), r)[i].result == r
    ensures IsSubseq(Lookup(OutcomeGroups(games), r), games)
    ensures r in OutcomeGroups(games) <==> exists i :: 0 <= i < |games| && games[i].result == r
  {
    GroupByProperties(games, ResultOf, r);
  }

  lemma {:induction false} OutcomeFiltersCoverAll(games: seq<Game>)
    ensures multiset(Filter(games, HasKey(ResultOf, Won))) + multiset(Filter(games, HasKey(ResultOf, Draw)))
              + multiset(Filter(games, HasKey(ResultOf, Lost))) == multiset(games)
    decreases |games|
  {
    if games != [] {
      OutcomeFiltersCoverAll(games[1..]);
      var g, rest := games[0], games[1..];
      assert games == [g] + rest;
      assert HasKey(ResultOf, g.result)(g);
      match g.result
      case Won =>
        assert Filter(games, HasKey(ResultOf, Won)) == [g] + Filter(rest, HasKey(ResultOf, Won));
      case Draw =>
        assert Filter(games, HasKey(ResultOf, Draw)) == [g] + Filter(rest, HasKey(ResultOf, Draw));
      case Lost =>
        assert Filter(games, HasKey(ResultOf, Lost)) == [g] + Filter(rest, HasKey(ResultOf, Lost));
    }
  }

  /** The three outcome groups together hold every game exactly once. */
  lemma {:induction false} OutcomeGroupsCoverAll(games: seq<Game>)
    ensures |Lookup(OutcomeGroups(games), Won)| + |Lookup(OutcomeGroups(games), Draw)|
              + |Lookup(OutcomeGroups(games), Lost)| == |games|
    ensures multiset(Lookup(OutcomeGroups(games), Won)) + multiset(Lookup(OutcomeGroups(games), Draw))
              + multiset(Lookup(OutcomeGroups(games), Lost)) == multiset(games)
  {
    var m := OutcomeGroups(games);
    OutcomeFiltersCoverAll(games);
    var w, d, l := Lookup(m, Won), Lookup(m, Draw), Lookup(m, Lost);
    assert |multiset(w) + multiset(d) + multiset(l)| == |w| + |d| + |l|;
  }

  /** The program prints each outcome group through `get(...).forEach`. The
      draw group is absent exactly on a list without a draw; there that `get`
      yields `null` and the printing would fail, while `Lookup` reads the
      absent group as empty. */
  lemma {:induction false} OutcomeGetMissingWithoutDraw(games: seq<Game>)
    ensures Get(OutcomeGroups(games), Draw) == None <==> forall i :: 0 <= i < |games| ==> games[i].result != Draw
    ensures Get(OutcomeGroups(games), Draw) == None ==> Lookup(OutcomeGroups(games), Draw) == []
  {
    OutcomeGroupsProperties(games, Draw);
  }

  // ---------------------------------------------------------------------
  // Average goals per game

  /** Sum of the goal counts of `games` (`mapToInt(goalCount).sum()`). */
  function GoalTotal(games: seq<Game>): int {
    if games == [] then 0 else GoalCount(games[0]) + GoalTotal(games[1..])
  }

  /** `mapToInt(goalCount).average().orElse(0.0)`, in exact arithmetic: the
      mean times the number of games is the goal total. */
  function AverageGoalsMapToInt(games: seq<Game>): (avg: real)
    ensures games == [] ==> avg == 0.0
    ensures games != [] ==> avg * (|games| as real) == GoalTotal(games) as real
  {
    if games == [] then 0.0 else (GoalTotal(games) as real) / (|games| as real)
  }

  /** The running sum and count of `averagingDouble` after consuming `rest`. */
  function AveragingAccumulate(rest: seq<Game>, sum: real, count: nat): (real, nat)
    decreases |rest|
  {
    if rest == [] then (sum, count)
    else AveragingAccumulate(rest[1..], sum + GoalCount(rest[0]) as real, count + 1)
  }

  /** `collect(averagingDouble(goalCount))`, in exact arithmetic: a running
      sum and count, divided at the end, 0 when nothing was counted. */
  function AverageGoalsAveraging(games: seq<Game>): real {
    var (sum, count) := AveragingAccumulate(games, 0.0, 0);
    if count == 0 then 0.0 else sum / (count as real)
  }

  lemma {:induction false} AveragingAccumulateTotals(rest: seq<Game>, sum: real, count: nat)
    ensures AveragingAccumulate(rest, sum, count) == (sum + GoalTotal(rest) as real, count + |rest|)
    decreases |rest|
  {
    if rest != [] {
      AveragingAccumulateTotals(rest[1..], sum + GoalCount(rest[0]) as real, count + 1);
    }
  }

  /** Both ways of averaging give the same value. */
  lemma {:induction false} AverageMethodsAgree(games: seq<Game>)
    ensures AverageGoalsMapToInt(games) == AverageGoalsAveraging(games)
  {
    AveragingAccumulateTotals(games, 0.0, 0);
  }

  lemma {:induction false} GoalTotalAtLeast(games: seq<Game>, c: int)
    requires forall i :: 0 <= i < |games| ==> c <= GoalCount(games[i])
    ensures |games| * c <= GoalTotal(games)
    decreases |games|
  {
    if games != [] {
      GoalTotalAtLeast(games[1..], c);
    }
  }

  /** A mean is at least any lower bound of the averaged values. */
  lemma MeanAtLeast(total: int, n: nat, c: int)
    requires n > 0 && n * c <= total
    ensures c as real <= total as real / n as real
  {
    var q := total as real / n as real;
    assert q * n as real == total as real;
    assert (n * c) as real == (c as real) * (n as real);
    if q < c as real {
      assert q * n as real < (c as real) * (n as real);
    }
  }

  /** The average is at least the goal count of the game with the fewest
      goals. */
  lemma {:induction false} AverageAtLeastFewestGoals(games: seq<Game>)
    requires games != []
    ensures GoalCount(games[FirstMinIndex(games, GoalCount)]) as real <= AverageGoalsMapToInt(games)
  {
    var c := GoalCount(games[FirstMinIndex(games, GoalCount)]);
    GoalTotalAtLeast(games, c);
    MeanAtLeast(GoalTotal(games), |games|, c);
  }

  // ---------------------------------------------------------------------
  // Home wins of the tracked team

  predicate IsBayernHomeWin(g: Game) {
    g.isHomeGame && g.home == BAYERN && g.result == Won
  }

  /** How many games the tracked team won at home. Such a game is both a
      home game and a won game, so the count is bounded by both groups. */
  function BayernHomeWinCount(games: seq<Game>): (n: nat)
    ensures n == |Positions(games, IsBayernHomeWin)|
    ensures n <= |HomeAwaySplit(games).trueSide|
    ensures n <= |Lookup(OutcomeGroups(games), Won)|
  {
    FilterSizeIsPositions(games, IsBayernHomeWin);
    FilterMonotone(games, IsBayernHomeWin, IsHomeGame);
    forall i | 0 <= i < |games| && IsBayernHomeWin(games[i])
      ensures HasKey(ResultOf, Won)(games[i])
    {
      assert ResultOf(games[i]) == Won;
    }
    FilterMonotone(games, IsBayernHomeWin, HasKey(ResultOf, Won));
    |Filter(games, IsBayernHomeWin)|
  }

  // ---------------------------------------------------------------------
  // Game with the fewest goals

  /** `sorted(comparingInt(goalCount)).findFirst().orElse(null)`. */
  function FewestGoalsGameSorted(games: seq<Game>): Option<Game> {
    FirstOfSorted(games, GoalCount)
  }

  /** `min(comparingInt(goalCount)).orElse(null)`. */
  function FewestGoalsGameMin(games: seq<Game>): Option<Game> {
    MinBy(games, GoalCount)
  }

  /** Both ways return the same game: nothing for an empty list, and
      otherwise the first game whose goal count is smallest. */
  lemma {:induction false} FewestGoalsMethodsAgree(games: seq<Game>)
    ensures FewestGoalsGameSorted(games) == FewestGoalsGameMin(games)
    ensures games == [] ==> FewestGoalsGameMin(games) == None
    ensures games != [] ==> FewestGoalsGameMin(games) == Some(games[FirstMinIndex(games, GoalCount)])
  {
    FirstOfSortedIsFirstMin(games, GoalCount);
    MinByIsFirstMin(games, GoalCount);
  }

  // ---------------------------------------------------------------------
  // Distinct start times

  /** The start time of every game, in list order (`map(Game::getTime)`). */
  function StartTimes(games: seq<Game>): (times: seq<string>)
    ensures |times| == |games|
    ensures forall i :: 0 <= i < |games| ==> times[i] == games[i].time
  {
    seq(|games|, i requires 0 <= i < |games| => StartTime(games[i]))
  }

  /** The start times without repetitions, in the order in which they are
      first seen. */
  function DistinctStartTimes(games: seq<Game>): (times: seq<string>)
    ensures NoDuplicates(times)
    ensures forall i :: 0 <= i < |times| ==> times[i] in StartTimes(games)
    ensures forall t :: t in times <==> exists i :: 0 <= i < |games| && games[i].time == t
    ensures forall i, j :: 0 <= i < j < |times| ==>
              FirstIndex(StartTimes(games), times[i]) < FirstIndex(StartTimes(games), times[j])
  {
    var all := StartTimes(games);
    DistinctFirstSeenOrder(all);
    Distinct(all)
  }

  /** The distinct start times joined with ", ". */
  function StartTimesDisplay(games: seq<Game>): string {
    Join(DistinctStartTimes(games), ", ")
  }

  /** The display string is empty without games, is the single time when
      there is one, and otherwise is the first time, ", ", and the display
      of the others; its length counts every time and one separator between
      each two. */
  lemma {:induction false} StartTimesDisplayShape(games: seq<Game>)
    ensures games == [] ==> StartTimesDisplay(games) == ""
    ensures |DistinctStartTimes(games)| == 1 ==> StartTimesDisplay(games) == DistinctStartTimes(games)[0]
    ensures |DistinctStartTimes(games)| >= 2 ==>
              StartTimesDisplay(games) == DistinctStartTimes(games)[0] + ", " + Join(DistinctStartTimes(games)[1..], ", ")
    ensures DistinctStartTimes(games) != [] ==>
              |StartTimesDisplay(games)| == TotalLength(DistinctStartTimes(games)) + 2 * (|DistinctStartTimes(games)| - 1)
  {
    var times := DistinctStartTimes(games);
    if games == [] {
      assert StartTimes(games) == [];
    }
    JoinShape(times, ", ");
  }

  // ---------------------------------------------------------------------
  // Away win of the tracked team by two goals or more

  predicate IsAwayGame(g: Game) {
    !g.isHomeGame
  }

  predicate BayernPlaysAway(g: Game) {
    g.away == BAYERN
  }

  predicate WonByTwoAway(g: Game) {
    g.awayGoals - g.homeGoals >= 2
  }

  /** An away game of the tracked team won by two goals or more. */
  predicate IsBayernAwayWinByTwo(g: Game) {
    IsAwayGame(g) && BayernPlaysAway(g) && WonByTwoAway(g)
  }

  /** Did the tracked team win an away game by at least two goals? */
  function BayernWonAwayByTwo(games: seq<Game>): (won: bool)
    ensures won <==> (exists i :: 0 <= i < |games| && IsBayernAwayWinByTwo(games[i]))
    ensures games == [] ==> !won
  {
    var candidates := Filter(Filter(games, IsAwayGame), BayernPlaysAway);
    AwayCandidatesMatch(games);
    AnyMatch(candidates, WonByTwoAway)
  }

  lemma {:induction false} AwayCandidatesMatch(games: seq<Game>)
    ensures AnyMatch(Filter(Filter(games, IsAwayGame), BayernPlaysAway), WonByTwoAway) <==>
              (exists i :: 0 <= i < |games| && IsBayernAwayWinByTwo(games[i]))
  {
    var away := Filter(games, IsAwayGame);
    var candidates := Filter(away, BayernPlaysAway);
    if AnyMatch(candidates, WonByTwoAway) {
      var j :| 0 <= j < |candidates| && WonByTwoAway(candidates[j]);
      var g := candidates[j];
      FilterMembership(away, BayernPlaysAway, g);
      FilterMembership(games, IsAwayGame, g);
      var i :| 0 <= i < |games| && games[i] == g;
      assert IsBayernAwayWinByTwo(games[i]);
    }
    if i :| 0 <= i < |games| && IsBayernAwayWinByTwo(games[i]) {
      var g := games[i];
      FilterMembership(games, IsAwayGame, g);
      FilterMembership(away, BayernPlaysAway, g);
      var j :| 0 <= j < |candidates| && candidates[j] == g;
      assert WonByTwoAway(candidates[j]);
    }
  }

  // ---------------------------------------------------------------------
  // The 2019 games grouped by home team, flattened again

  predicate PlayedIn2019(g: Game) {
    Contains(g.date, YEAR)
  }

  /** The games of 2019 grouped by home team. */
  function Games2019ByHomeTeam(games: seq<Game>): map<string, seq<Game>> {
    GroupBy(Filter(games, PlayedIn2019), HomeTeam)
  }

  /** The groups of the 2019 games flattened back into one list, taking the
      home teams in the iteration order `order` of the map. Whatever that
      order, the result is a permutation of the 2019 games, and the games of
      each home team keep their order in the list. */
  function FlattenedGames2019(games: seq<Game>, order: seq<string>): (flat: seq<Game>)
    requires Enumerates(order, Games2019ByHomeTeam(games).Keys)
    ensures multiset(flat) == multiset(Filter(games, PlayedIn2019))
    ensures forall i :: 0 <= i < |flat| ==> PlayedIn2019(flat[i])
    ensures forall k :: Filter(flat, HasKey(HomeTeam, k)) == Filter(Filter(games, PlayedIn2019), HasKey(HomeTeam, k))
  {
    var selected := Filter(games, PlayedIn2019);
    var flat := Flatten(Games2019ByHomeTeam(games), order);
    FlattenGroupsIsPermutation(selected, HomeTeam, order);
    Flattened2019Facts(games, order);
    flat
  }

  lemma {:induction false} Flattened2019Facts(games: seq<Game>, order: seq<string>)
    requires Enumerates(order, Games2019ByHomeTeam(games).Keys)
    ensures forall i :: 0 <= i < |Flatten(Games2019ByHomeTeam(games), order)| ==>
              PlayedIn2019(Flatten(Games2019ByHomeTeam(games), order)[i])
    ensures forall k :: Filter(Flatten(Games2019ByHomeTeam(games), order), HasKey(HomeTeam, k)) ==
              Filter(Filter(games, PlayedIn2019), HasKey(HomeTeam, k))
  {
    var selected := Filter(games, PlayedIn2019);
    var m := Games2019ByHomeTeam(games);
    var flat := Flatten(m, order);
    FlattenGroupsIsPermutation(selected, HomeTeam, order);
    forall i | 0 <= i < |flat| ensures PlayedIn2019(flat[i]) {
      assert flat[i] in multiset(selected);
      FilterMembership(games, PlayedIn2019, flat[i]);
    }
    forall k ensures Filter(flat, HasKey(HomeTeam, k)) == Filter(selected, HasKey(HomeTeam, k)) {
      FlattenKeepsGroupOrder(selected, HomeTeam, order, k);
      if k !in order {
        assert Lookup(m, k) == [];
      }
    }
  }

  /** The query as the program runs it: the map's iteration order is not
      fixed by the source, so any enumeration of the home teams may be
      taken. */
  method FlattenGames2019(games: seq<Game>) returns (flat: seq<Game>)
    ensures multiset(flat) == multiset(Filter(games, PlayedIn2019))
    ensures forall k :: Filter(flat, HasKey(HomeTeam, k)) == Filter(Filter(games, PlayedIn2019), HasKey(HomeTeam, k))
  {
    var byHome := Games2019ByHomeTeam(games);
    var order := SomeOrder(byHome.Keys);
    flat := FlattenedGames2019(games, order);
  }
}
