/**
 The record the queries run over: one game of the tracked team, as loaded
 from one line of the games table.
 */
module GameModel {

  /** The outcome of a game for the tracked team. */
  datatype Result = Won | Draw | Lost

  /** One game. Goal counts are never negative. Whether the tracked team
      played at home and the outcome are kept as stored attributes: the
      class that derives them when a line is parsed is not part of this
      model. */
  datatype Game = Game(
    date: string,
    time: string,
    home: string,
    away: string,
    homeGoals: nat,
    awayGoals: nat,
    info: string,
    isHomeGame: bool,
    result: Result)

  /** Goals scored in the game by both teams together. */
  function GoalCount(g: Game): int {
    g.homeGoals + g.awayGoals
  }

  // The attribute getters, as function values for the stream stages.

  predicate IsHomeGame(g: Game) {
    g.isHomeGame
  }

  function ResultOf(g: Game): Result {
    g.result
  }

  function HomeTeam(g: Game): string {
    g.home
  }

  function StartTime(g: Game): string {
    g.time
  }
}
