/**
 * The navigation guards of the router. Each guarded route decides, from the
 * game store's phase flags and level alone, whether to admit the navigation
 * or redirect it to another route; any other path redirects to the home
 * route. The guards are pure functions of the state: they cannot change it.
 */
module Router {
  import opened Wrappers
  import opened GameModel
  import GameSession

  datatype Route = Home | GamePlay | GameOver | GameWon

  datatype Decision = Admit | RedirectTo(target: Route)

  /** The route registered for a path: `/`, `/game-play`, `/game-over`, `/game-won`. */
  function RouteOf(path: string): (r: Option<Route>)
    ensures r.None? <==> path !in {"/", "/game-play", "/game-over", "/game-won"}
    ensures r == Some(Home) <==> path == "/"
    ensures r == Some(GamePlay) <==> path == "/game-play"
    ensures r == Some(GameOver) <==> path == "/game-over"
    ensures r == Some(GameWon) <==> path == "/game-won"
  {
    if path == "/" then Some(Home)
    else if path == "/game-play" then Some(GamePlay)
    else if path == "/game-over" then Some(GameOver)
    else if path == "/game-won" then Some(GameWon)
    else None
  }

  /** A level is under way: in play, paused, or between two levels. */
  predicate GameActive(s: GameState) {
    s.isPlaying || s.isPaused || (s.currentLevel > 1 && !s.isGameOver && !s.isGameWon)
  }

  /** The guard of `/game-play`: only while a game is active. */
  function GamePlayGuard(s: GameState): (d: Decision)
    ensures d == Admit <==> GameActive(s)
    ensures d != Admit ==> d == RedirectTo(Home)
  {
    if s.isPlaying || s.isPaused || (s.currentLevel > 1 && !s.isGameOver && !s.isGameWon) then Admit
    else RedirectTo(Home)
  }

  /** The guard of `/game-over`: only once the game is lost. */
  function GameOverGuard(s: GameState): (d: Decision)
    ensures d == Admit <==> s.isGameOver
    ensures !s.isGameOver && (s.isPlaying || s.isPaused) ==> d == RedirectTo(GamePlay)
    ensures !s.isGameOver && !s.isPlaying && !s.isPaused && s.isGameWon ==> d == RedirectTo(GameWon)
    ensures !s.isGameOver && !s.isPlaying && !s.isPaused && !s.isGameWon ==> d == RedirectTo(Home)
  {
    if s.isGameOver then Admit
    else if s.isPlaying || s.isPaused then RedirectTo(GamePlay)
    else if s.isGameWon then RedirectTo(GameWon)
    else RedirectTo(Home)
  }

  /** The guard of `/game-won`: only once the game is won. */
  function GameWonGuard(s: GameState): (d: Decision)
    ensures d == Admit <==> s.isGameWon
    ensures !s.isGameWon && (s.isPlaying || s.isPaused) ==> d == RedirectTo(GamePlay)
    ensures !s.isGameWon && !s.isPlaying && !s.isPaused && s.isGameOver ==> d == RedirectTo(GameOver)
    ensures !s.isGameWon && !s.isPlaying && !s.isPaused && !s.isGameOver ==> d == RedirectTo(Home)
  {
    if s.isGameWon then Admit
    else if s.isPlaying || s.isPaused then RedirectTo(GamePlay)
    else if s.isGameOver then RedirectTo(GameOver)
    else RedirectTo(Home)
  }

  /** The decision for entering a route; the home route has no guard. */
  function Guard(s: GameState, r: Route): Decision {
    match r
    case Home => Admit
    case GamePlay => GamePlayGuard(s)
    case GameOver => GameOverGuard(s)
    case GameWon => GameWonGuard(s)
  }

  /**
   * Where a navigation to `path` ends: an unknown path goes home, and a
   * guarded route either admits or sends the navigation on once.
   */
  function Navigate(s: GameState, path: string): (r: Route)
    ensures Guard(s, r) == Admit
    ensures RouteOf(path).None? ==> r == Home
    ensures RouteOf(path).Some? && Guard(s, RouteOf(path).value) == Admit ==> r == RouteOf(path).value
    ensures RouteOf(path).Some? && Guard(s, RouteOf(path).value) != Admit ==>
      r == Guard(s, RouteOf(path).value).target
  {
    match RouteOf(path)
    case None => Home
    case Some(route) =>
      match Guard(s, route)
      case Admit => route
      case RedirectTo(target) =>
        RedirectSettles(s, route);
        target
  }

  /** The target of every redirect admits the same state: resolution settles after one redirect. */
  lemma RedirectSettles(s: GameState, r: Route)
    ensures Guard(s, r).RedirectTo? ==> Guard(s, Guard(s, r).target) == Admit
  {
  }

  /** A redirect never points back at the route that issued it. */
  lemma RedirectNeverLoops(s: GameState, r: Route)
    ensures Guard(s, r).RedirectTo? ==> Guard(s, r).target != r
  {
  }

  /** The guards read only the phase flags and the level. */
  lemma GuardsReadOnlyPhase(s: GameState, t: GameState, r: Route)
    requires s.isPlaying == t.isPlaying && s.isPaused == t.isPaused
    requires s.isGameOver == t.isGameOver && s.isGameWon == t.isGameWon
    requires s.currentLevel == t.currentLevel
    ensures Guard(s, r) == Guard(t, r)
  {
  }

  /**
   * In a freshly reset store every guarded route sends the navigation home,
   * and so does a path no route matches.
   */
  lemma IdleStateGoesHome(s: GameState, path: string)
    requires s.currentLevel == 1
    requires !s.isPlaying && !s.isPaused && !s.isGameOver && !s.isGameWon
    ensures Guard(s, GamePlay) == RedirectTo(Home)
    ensures Guard(s, GameOver) == RedirectTo(Home)
    ensures Guard(s, GameWon) == RedirectTo(Home)
    ensures Navigate(s, path) == Home
  {
  }

  /**
   * In terms of the game's phases: the play screen is open during a level,
   * its pause, and the transition to the next level, and also whenever the
   * pause flag is set, whatever the phase; each end screen is open exactly
   * in its own phase.
   */
  lemma GuardsFollowPhase(s: GameState)
    requires PhasesExclusive(s)
    ensures Guard(s, GamePlay) == Admit <==> PhaseOf(s) in {Playing, Paused, LevelTransition} || s.isPaused
    ensures !s.isPaused ==>
      (Guard(s, GamePlay) == Admit <==> PhaseOf(s) in {Playing, Paused, LevelTransition})
    ensures Guard(s, GameOver) == Admit <==> PhaseOf(s) == Over
    ensures Guard(s, GameWon) == Admit <==> PhaseOf(s) == Won
  {
  }

  /**
   * Spiking is not blocked by the pause flag, and completing the last level
   * keeps it: the last bug of level 4 spiked while paused wins the game with
   * the pause flag still set, and then both the won screen and the play
   * screen admit.
   */
  lemma PausedWinOpensPlayScreen(st: GameSession.Store, id: string)
    requires PhasesExclusive(st.game)
    requires st.game.isPlaying && st.game.isPaused && st.game.currentLevel == MaxLevel
    requires CanSpike(st.game.bugs, id) && BugsRemaining(st.game.bugs) == 1
    ensures var r := GameSession.Apply(st, GameSession.Spike(id)).game;
      && PhaseOf(r) == Won && r.isPaused && !r.isPlaying
      && Guard(r, GameWon) == Admit
      && Guard(r, GamePlay) == Admit
  {
  }

  /** Under exclusive phases, the lost and won screens never both admit, nor does either during play. */
  lemma EndScreensExclusive(s: GameState)
    requires PhasesExclusive(s)
    ensures !(Guard(s, GameOver) == Admit && Guard(s, GameWon) == Admit)
    ensures s.isPlaying ==>
      Guard(s, GamePlay) == Admit && Guard(s, GameOver) != Admit && Guard(s, GameWon) != Admit
  {
  }
}
