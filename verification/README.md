# Games stream queries in Dafny

This project models the analysis part of the Games program. The program loads a
list of football games of FC Bayern Muenchen and then runs a fixed series of
read-only stream queries over that list:

- count the Bundesliga games;
- split the list into home and away games;
- group the games by outcome (won, draw, lost);
- average the goals per game, in two ways;
- count the home wins of the tracked team;
- find the game with the fewest goals, in two ways;
- list the distinct start times, joined with ", ";
- ask whether the tracked team won an away game by two goals or more;
- take the 2019 games grouped by home team and flatten them back into one list.

Each query is a pure function of the list (`seq<Game>`). The pipelines are
built from generic, order-preserving stages:

- `Seqs`: `Filter`, `AnyMatch`, `Distinct`, and the subsequence relation `IsSubseq`.
- `Strings`: `Contains`, `IndexOf` and `Join`.
- `Grouping`: `PartitionBy`, `GroupBy`, `Lookup`, `Get` and `Flatten`. One
  `GroupBy` serves both grouping queries.
- `Sorting`: a stable `SortBy`, `MinBy` as the `minBy` reduction, and the
  reference `FirstMinIndex`.
- `GameModel`: the `Game` record.
- `Games`: the queries themselves.

A game is an immutable datatype with these fields: date, time, home, away,
homeGoals, awayGoals, info, isHomeGame and result. `GoalCount` is the sum of
both teams' goals. The class `games.model.Game`, including its parser
`fromString`, is not part of this model. So whether the tracked team played at
home, and the outcome, are stored attributes.

Predicates are passed to the stages as named functions. `HasKey(key, k)` builds
the predicate "the key is `k`". So the same predicate is the same value
everywhere, and the group contents can be stated as filters.

The order in which a `HashMap` yields its values is not fixed by the program.
`Flatten` therefore takes that order as a parameter, and every property of the
flattened list holds for any enumeration of the keys. `SomeOrder` picks such an
enumeration non-deterministically.

## Model

| member | source | states |
|---|---|---|
| Games.BundesligaGameCount | Games/src/app/Games.java:42-44 | the count equals the number of positions whose info contains "BUNDESLIGA"; it is at most the list length and 0 for an empty list |
| Strings.IndexOf | Games/src/app/Games.java:43 | substring search as `contains` uses it: -1 exactly when the tag does not occur, otherwise the first position where it occurs |
| Seqs.FilterSizeIsPositions | Games/src/app/Games.java:42-44 | `filter(...).count()` equals the number of positions satisfying the predicate |
| Seqs.Filter | Games/src/app/Games.java:43 | every kept element satisfies the predicate and no more elements come out than went in |
| Seqs.FilterIsSubseq | Games/src/app/Games.java:43 | a filter keeps the relative order of what it keeps |
| Seqs.FilterMembership | Games/src/app/Games.java:43 | an element is kept exactly when it is in the input and satisfies the predicate |
| Grouping.PartitionBy | Games/src/app/Games.java:57-58 | the true side is the input filtered by the predicate, and the false side is the input filtered by its negation, both in input order |
| Grouping.PartitionByProperties | Games/src/app/Games.java:57-58 | the side sizes add up to the input length; the multiset union of the sides is the input; each side holds only elements of its truth value; each side is a subsequence of the input |
| Games.HomeAwaySplit | Games/src/app/Games.java:57-58 | the home side holds only home games and the away side only away games; together they are a permutation of the list, each in list order |
| Grouping.GroupBy | Games/src/app/Games.java:72-73 | the key set is exactly the set of keys that occur, and the group of every key is exactly the input filtered by that key, in input order |
| Grouping.GroupByProperties | Games/src/app/Games.java:72-73 | every element of a group has the group's key; a group is a subsequence of the input; a key is present exactly when some element has it, and then its group is non-empty |
| Games.OutcomeGroupsProperties | Games/src/app/Games.java:72-73 | every game in an outcome group has that outcome; groups keep list order; an outcome is a key exactly when some game has it |
| Games.OutcomeFiltersCoverAll | Games/src/app/Games.java:72-73 | the games with outcome WON, DRAW and LOST, each filtered in list order, together make up the list as a multiset |
| Games.OutcomeGroupsCoverAll | Games/src/app/Games.java:72-81 | the WON, DRAW and LOST group sizes sum to the list length, and their multiset union is the list |
| Grouping.GetOfGroupBy | Games/src/app/Games.java:72-81 | `get` on the grouped map is absent exactly when no element has the key; otherwise it is the non-empty group of the elements with that key, in input order |
| Games.OutcomeGetMissingWithoutDraw | Games/src/app/Games.java:77-81 | the `get` of the draw group is absent exactly when no game is a draw; then `Lookup` returns an empty group |
| Games.AverageGoalsMapToInt | Games/src/app/Games.java:88-91 | the average is 0 for an empty list; otherwise it times the number of games equals the goal total |
| Games.AverageMethodsAgree | Games/src/app/Games.java:88-99 | the `mapToInt().average()` path and the running-sum `averagingDouble` path give the same value |
| Games.AveragingAccumulateTotals | Games/src/app/Games.java:98-99 | the running sum and count after a pass are the start values plus the goal total and the number of games |
| Games.AverageAtLeastFewestGoals | Games/src/app/Games.java:88-91 | for a non-empty list, the average is at least the goal count of the game with the fewest goals |
| Games.BayernHomeWinCount | Games/src/app/Games.java:109-111 | the count equals the number of home games of FC Bayern Muenchen it won; it is at most the home-side size and at most the WON-group size |
| Sorting.SortBy | Games/src/app/Games.java:122 | the sorted list is a permutation of the input and is ordered by goal count |
| Sorting.SortIsStable | Games/src/app/Games.java:122 | for every key value, sorting keeps the elements with that key in input order |
| Sorting.FirstMinIndex | Games/src/app/Games.java:121-132 | the index of an element whose key is at most every key, with every earlier element's key strictly larger |
| Sorting.FirstOfSortedIsFirstMin | Games/src/app/Games.java:121-124 | `sorted().findFirst()` is absent for an empty list, and otherwise is the first element with the smallest key |
| Sorting.MinByIsFirstMin | Games/src/app/Games.java:130-132 | `min()`, a left reduction keeping the earlier element on ties, is absent for an empty list and otherwise is the first element with the smallest key |
| Games.FewestGoalsMethodsAgree | Games/src/app/Games.java:121-132 | the two ways return the same game; there is no result exactly when the list is empty; otherwise the result is the first game with the smallest goal count |
| Seqs.Distinct | Games/src/app/Games.java:144 | the result has no duplicates and holds exactly the values of the input |
| Seqs.DistinctFirstSeenOrder | Games/src/app/Games.java:144 | the values appear in the order of their first occurrence in the input |
| Games.DistinctStartTimes | Games/src/app/Games.java:142-144 | the start times have no duplicates, are exactly the times that occur in the list, and appear in first-seen order |
| Strings.JoinShape | Games/src/app/Games.java:145 | joining gives "" for no parts, the part itself for one, and otherwise the first part, the separator, then the join of the rest; the length is the parts' total plus one separator between each two |
| Games.StartTimesDisplayShape | Games/src/app/Games.java:142-145 | the display string is empty without games; otherwise it is the distinct times joined with ", ", with the matching length |
| Seqs.AnyMatch | Games/src/app/Games.java:160 | `anyMatch` holds exactly when some element satisfies the predicate |
| Games.BayernWonAwayByTwo | Games/src/app/Games.java:157-160 | true exactly when some game is an away game of FC Bayern Muenchen with awayGoals - homeGoals >= 2; false for an empty list |
| Grouping.SomeOrder | Games/src/app/Games.java:172 | the chosen iteration order lists every key of the map exactly once |
| Grouping.FlattenGroupsIsPermutation | Games/src/app/Games.java:169-174 | grouping and then flattening in any repetition-free order covering the keys gives a permutation of the input |
| Grouping.FlattenKeepsGroupOrder | Games/src/app/Games.java:169-174 | in the flattened list, the elements of each listed key are exactly that key's group, in input order |
| Games.FlattenedGames2019 | Games/src/app/Games.java:169-174 | for any enumeration of the home teams, the result is a permutation of the games whose date contains "2019"; every element is such a game; each home team's games keep list order |
| Games.FlattenGames2019 | Games/src/app/Games.java:169-174 | the query with an unspecified map order: a permutation of the 2019 games that keeps each home team's games in list order |

## Left out

- Loading the file is I/O and is not modelled. This covers `Files.lines`, skipping the header, and turning any failure into `NoSuchElementException` (Games/src/app/Games.java:28-32). The queries take the loaded list as their input.
- `Game.fromString` and the derivation of `isHomeGame` and `result` are not modelled. The class `games.model.Game` is not part of this model, so these two attributes are stored fields of a game.
- All console output is left out, because it is output only. This covers `println`, the `printf` formatting with two decimals, and the "yes"/"no" rendering.
- AverageGoalsMapToInt: the average is exact (a `real`), not an IEEE double. The two paths agree exactly, whereas the source's `double` paths agree only up to rounding.
- AverageGoalsAveraging: models the running sum and count, but not the compensated summation that `averagingDouble` uses internally. That summation only affects floating-point rounding.
- GoalCount: goals are unbounded non-negative integers, so Java's 32-bit `int` wrap-around of `homeGoals + awayGoals` is not modelled. Real goal counts are far from that bound.
- WonByTwoAway: the difference `awayGoals - homeGoals` (Games/src/app/Games.java:160) is taken without 32-bit wrap-around. With both goal counts non-negative and within `int` range the Java subtraction cannot wrap, so the two agree for every game with non-negative goals, which the `nat` goal fields guarantee.
- Flatten: the order in which the `HashMap` yields its groups is not modelled. It is a parameter, and only the permutation and per-group order properties are stated.

## Findings

| source | as written | input that shows it | evidently intended | confidence | as-written member | corrected member |
|---|---|---|---|---|---|---|
| Games/src/app/Games.java:77-81 | each outcome group is printed with `wonLostDrawMap.get(Result.X).forEach(...)`; `groupingBy` creates no key for an outcome no game has, so `get` returns `null` | any list without a draw, e.g. one whose games are all won: the DRAW key is absent, so `get(Result.DRAW)` is `null` and `forEach` throws `NullPointerException` | an absent outcome is an empty group | medium, not executed | Games.OutcomeGetMissingWithoutDraw | Grouping.GroupBy |
