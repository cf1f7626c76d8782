# Bug-clicker game core, modelled in Dafny

This project models the core of a browser arcade game: the player clicks
("spikes") moving bugs before a level's clock runs out. Four levels get
shorter and more crowded. The model covers three parts:

- The game store (`src/stores/game.ts`): the state record, the parameters
  derived from the level, bug generation, the spike/remove actions, level
  completion, the one-second timer, pause, reset and new game, and the
  per-frame movement step with wall clamping.
- The navigation guards of the router (`src/router/index.ts`).
- The language store (`src/stores/language.ts`).

Every action is a pure function. It takes a `GameState` and returns the
next one.

- **Random draws.** Each `Math.random()` value is an input of subset type
  `Draw`, a real in [0, 1). A bug being spawned takes a `SpawnDraws` record
  of seven draws. A bug being moved takes a `MoveDraws` record of nine.
  Each record is supplied as a stream indexed by the bug's position.
- **Square root.** `Math.sqrt` of a sum of squares is a caller-supplied
  function `hypot`. None of its properties are assumed: the bounds come
  from the clamp alone.
- **The deferred start.** `setTimeout(startLevel, 2000)` becomes a counter
  of scheduled starts in `GameSession.Store`. The event
  `PendingStartFires` takes one scheduled start and runs it. Events may
  come in any order, so a scheduled start can fire after any other event,
  just as the uncancelled timeout can.

Modules:

| module | file | contents |
|---|---|---|
| `Wrappers` | wrappers.dfy | `Option` |
| `Decimal` | decimal.dfy | how `${n}` renders an integer, parsing it back, injectivity |
| `GameModel` | game_model.dfy | `Bug`, `GameState`, configuration, level parameters, counting and lookup, `Valid`, `PhasesExclusive`, `PhaseOf` |
| `Spawn` | spawn.dfy | `generateBugs` |
| `Movement` | movement.dfy | `updateBugPositions` |
| `GameActions` | game_actions.dfy | the store actions |
| `GameSession` | game_session.dfy | the store plus scheduled starts, events, runs, and the scenario lemmas |
| `Router` | router.dfy | route table and the three `beforeEnter` guards |
| `Language` | language.dfy | the language store |

Behaviour of the code that the model keeps as written:

- Nothing cancels the 2-second timeout that starts the next level
  (src/stores/game.ts:126-128), and nothing in the model does either. A
  start scheduled before a reset revives a game at level 1
  (`GameSession.StaleStartAfterReset`). A start that fires after a loss
  leaves the game both lost and in play (`GameSession.StaleStartAfterLoss`).
- Game-over and game-won stay exclusive of each other and of playing after
  every event except that stale start
  (`GameSession.ApplyKeepsPhasesExclusive`).
- `removeBug` (src/stores/game.ts:108-113) deletes the first bug with the id
  whether it is alive or dead. It never checks whether the level is
  complete (`GameActions.RemovingLastAliveBugLeavesLevelOpen`).
- `completeLevel` (src/stores/game.ts:115-130) has no guard of its own.
  Only `spikeBug` checks that the level is complete before calling it.
- `spikeBug` (src/stores/game.ts:96-106) does not check `isPlaying` or
  `isPaused`. Spiking while paused or after the game ended still kills the
  bug and scores. Neither `startLevel` nor `completeLevel` clears
  `isPaused`. So spiking the last bug of level 4 while paused leaves the
  game won and still paused, and the `/game-play` guard, which admits
  whenever `isPaused` is set, then admits next to the won screen
  (`Router.PausedWinOpensPlayScreen`).
- The language store starts at `es` (src/stores/language.ts:13), which is
  supported. So `initializeLanguage` keeps it on a first visit, and the
  browser language is adopted only when a stored value is missing or
  unsupported (`Language.FirstVisitKeepsInitial`).

## Model

| member | source | states |
|---|---|---|
| `Decimal.NatToString` | src/stores/game.ts:83 | the rendering of a number inside a bug id is a non-empty string of decimal digits |
| `Decimal.ParseNatToString` | src/stores/game.ts:83 | parsing the rendered digits gives back the number, so the rendering loses nothing |
| `Decimal.NatToStringInjective` | src/stores/game.ts:83 | different numbers render differently |
| `Decimal.IntToString` | src/stores/game.ts:83 | a level renders as digits, with a leading '-' exactly when it is negative |
| `Decimal.IntToStringInjective` | src/stores/game.ts:83 | different levels render differently |
| `Decimal.SplitAtFirstDash` | src/stores/game.ts:83 | `a-b` with a dash-free head splits back into `a` and `b`, which is what separates level from index in an id |
| `GameModel.LevelTimeLimit` | src/stores/game.ts:49-51 | the time limit is never below 10 seconds, and never above 15 from level 1 on |
| `GameModel.TimeLimitNonIncreasing` | src/stores/game.ts:49-51 | a higher level never gets more time |
| `GameModel.TimeLimitFloor` | src/stores/game.ts:49-51 | the 10-second floor is reached exactly from level 4 on |
| `GameModel.BugCountIncreasing` | src/stores/game.ts:53 | a higher level gets strictly more bugs |
| `GameModel.SpeedIncreasing` | src/stores/game.ts:55 | a higher level gets strictly faster bugs |
| `GameModel.BugIdInjective` | src/stores/game.ts:83 | within a level, `bug-<level>-<i>` determines i |
| `GameModel.BugIdsDistinct` | src/stores/game.ts:83 | within a level, different indices give different ids |
| `GameModel.BugIdInjectiveAcrossLevels` | src/stores/game.ts:83 | for non-negative levels, an id determines both level and index, so regenerated batches never reuse an id |
| `GameModel.BugsRemaining` | src/stores/game.ts:47 | the alive count never exceeds the number of bugs |
| `GameModel.NoneRemainingIffAllDead` | src/stores/game.ts:47 | the count is zero exactly when every bug is dead |
| `GameModel.AllRemainingIffAllAlive` | src/stores/game.ts:47 | the count equals the length exactly when every bug is alive |
| `GameModel.RemainingAfterKill` | src/stores/game.ts:99 | killing one alive bug lowers the count by exactly one |
| `GameModel.RemainingAfterDelete` | src/stores/game.ts:111 | deleting a bug lowers the count by one exactly when that bug was alive |
| `GameModel.FirstIndexOf` | src/stores/game.ts:109 | the result carries the id and no earlier bug does; no result means no bug carries the id |
| `GameModel.FirstIndexOfSameIds` | src/stores/game.ts:97 | lookup by id depends only on the sequence of ids |
| `Spawn.Scale` | src/stores/game.ts:78-79 | a draw times a positive extent lies in [0, extent) |
| `Spawn.InitialVelocity` | src/stores/game.ts:88-89 | an initial velocity component lies in [-2, 2) |
| `Spawn.JitteredSpeed` | src/stores/game.ts:81 | a jittered speed lies in [0.7, 1.3) times a positive base |
| `Spawn.SpawnBug` | src/stores/game.ts:78-92 | a spawned bug is alive, carries its id, starts inside 768x568 with its target there too, and has bounded velocity and speed |
| `Spawn.GenerateBugs` | src/stores/game.ts:75-94 | a batch has `levelBugCount` bugs from level 1 on; all are alive, ids are `bug-<level>-<i>` and pairwise distinct, positions and targets lie in [0,768)x[0,568), speeds in [0.7, 1.3) times `levelSpeed` |
| `Movement.Abs` | src/stores/game.ts:203 | `Math.abs` is non-negative and equals the value or its negation |
| `Movement.Steer` | src/stores/game.ts:170-198 | steering keeps id, speed and liveness; the new position is the old one plus the new velocity; the target is kept unless the bug arrived, and a new target lies in the play area |
| `Movement.ClampX` | src/stores/game.ts:201-210 | with width at least 32, x ends in [0, width-32]; crossing the left wall leaves x at 0 with non-negative velocity, crossing the right wall leaves x at width-32 with non-positive velocity; a bug within the walls is untouched; nothing vertical changes |
| `Movement.ClampY` | src/stores/game.ts:211-220 | the same for y against the top and bottom walls |
| `Movement.StepBug` | src/stores/game.ts:166-221 | a dead bug is untouched; an alive bug ends inside the play area when both sides are at least 32 |
| `Movement.UpdateBugPositions` | src/stores/game.ts:163-222 | no change unless playing and not paused; only bugs change; ids, liveness, speed and alive count are kept; dead bugs are untouched; alive bugs end inside the play area |
| `Movement.SameAliveSameRemaining` | src/stores/game.ts:47 | lists that agree on liveness have the same alive count |
| `GameActions.StartLevel` | src/stores/game.ts:69-73 | play resumes with the level's time limit (at least 10) and a fresh, fully alive batch; level, score and the other flags are kept |
| `GameActions.StartNewGame` | src/stores/game.ts:60-67 | level 1, score 0, playing, not over, won or paused, 15 seconds, 8 alive bugs `bug-1-<i>` |
| `GameActions.NewGameForgetsPast` | src/stores/game.ts:60-67 | a new game does not depend on the state it starts from |
| `GameActions.GameOver` | src/stores/game.ts:132-135 | play stops and the game is lost; nothing else changes |
| `GameActions.CompleteLevel` | src/stores/game.ts:115-130 | play always stops; at level 4 or above the game is won with level and score kept and nothing scheduled; below it the level rises by one, score by 5 per second left, and one start is scheduled |
| `GameActions.KillBug` | src/stores/game.ts:96-101 | no effect unless the first bug with the id is alive; otherwise only that bug dies, the alive count drops by one, and score rises by 10 times the level |
| `GameActions.SpikeBug` | src/stores/game.ts:96-106 | no effect for an absent id or a dead first match; play stops exactly when the last alive bug of a level in play is spiked; in every case only the first bug with the id turns dead; spiking the last bug advances the level (scoring 10 times the level plus 5 per second and scheduling a start) or wins at the last level, with the clock, the game-over and pause flags (and the won flag when advancing) kept; otherwise the kill only scores 10 times the level |
| `GameActions.SpikeIdempotent` | src/stores/game.ts:96-106 | spiking the same id twice has the effect of spiking it once |
| `GameActions.RemoveBug` | src/stores/game.ts:108-113 | deletes exactly the first bug with the id, alive or dead, keeps the others in order, lowers the alive count only if that bug was alive; no effect for an absent id |
| `GameActions.RemovingLastAliveBugLeavesLevelOpen` | src/stores/game.ts:108-113 | removing the last alive bug leaves the level complete but still in play |
| `GameActions.PauseGame` | src/stores/game.ts:137-141 | flips the pause flag only while playing; nothing else changes |
| `GameActions.PauseTwiceIsIdentity` | src/stores/game.ts:137-141 | toggling pause twice restores the state |
| `GameActions.ResetGame` | src/stores/game.ts:143-152 | level 1, score 0, no bugs, 0 seconds, all flags false; valid and phase-exclusive |
| `GameActions.UpdateTimer` | src/stores/game.ts:154-161 | no change unless playing, not paused and time is left; otherwise exactly one second less, and at zero play stops and the game is lost |
| `GameActions.TimerStopsAtZero` | src/stores/game.ts:154-161 | the last second loses the game, and further ticks change nothing |
| `GameSession.InitialStore` | src/stores/game.ts:31-38 | a session starts in the reset state with nothing scheduled |
| `GameSession.FirePendingStart` | src/stores/game.ts:126-128 | a scheduled start runs `startLevel` on the current state and is used up; with none scheduled nothing happens |
| `GameSession.ApplyKeepsValid` | src/stores/game.ts:115-130 | every event keeps the level in [1, 4] and score and time non-negative |
| `GameSession.ScoreNeverDecreases` | src/stores/game.ts:96-130 | no event other than a new game or a reset lowers the score |
| `GameSession.RunKeepsValid` | src/stores/game.ts:60-222 | any sequence of events keeps the state valid |
| `GameSession.RunScoreNeverDecreases` | src/stores/game.ts:60-222 | along any sequence without a new game or reset the score only grows |
| `GameSession.ApplyKeepsPhasesExclusive` | src/stores/game.ts:115-135 | every event keeps game-over and game-won exclusive and both off while playing, unless a scheduled start fires into a lost or won game |
| `GameSession.NothingCancelsPendingStart` | src/stores/game.ts:126-128 | only the firing itself uses up a scheduled start; only a spike can add one, and at most one |
| `GameSession.StaleStartAfterReset` | src/stores/game.ts:143-152 | a start scheduled before a reset fires into the reset state and puts level 1 back in play with 15 seconds and 8 bugs |
| `GameSession.StaleStartAfterLoss` | src/stores/game.ts:126-128 | a start firing after a loss leaves the game both lost and in play |
| `GameSession.ApplyKeepsAliveInArea` | src/stores/game.ts:163-222 | with a play area of at least 800x600, no event moves an alive bug out of it |
| `GameSession.RunKeepsAliveInArea` | src/stores/game.ts:163-222 | alive bugs stay inside the play area across any number of frames and other events |
| `GameSession.ClockRunsOut` | src/stores/game.ts:154-161 | ticking a level in play for its remaining seconds loses the game with level, score and bugs kept, after which ticks change nothing |
| `GameSession.PauseFreezes` | src/stores/game.ts:137-164 | pausing a level in play freezes the clock and the bugs, and pausing again restores the level |
| `GameSession.NewGameAfterLoss` | src/stores/game.ts:60-67 | a new game after a loss starts level 1 with score 0, in play, with 8 alive bugs |
| `GameSession.LastLevelWins` | src/stores/game.ts:118-120 | the last bug of level 4 wins the game and schedules nothing |
| `GameSession.RunSpikesIsSpikeEach` | src/stores/game.ts:96-106 | a run of spike events is spiking each id in turn |
| `GameSession.FirstIndexOfDistinct` | src/stores/game.ts:97 | with distinct ids, a bug is found at its own position |
| `GameSession.RemainingOfAliveSuffix` | src/stores/game.ts:47 | with the first k bugs dead and the rest alive, n-k remain |
| `GameSession.SpikeNotLast` | src/stores/game.ts:96-106 | spiking a bug that is not the last alive one scores 10 times the level and keeps the level in play |
| `GameSession.SpikeLast` | src/stores/game.ts:96-130 | spiking the last alive bug below level 4 advances the level with the time bonus and schedules a start |
| `GameSession.SpikeRemaining` | src/stores/game.ts:96-130 | spiking the remaining bugs of a partly cleared level completes it with all points and one scheduled start |
| `GameSession.ClearLevel` | src/stores/game.ts:96-130 | clearing a level below 4 earns 10 times the level per bug plus 5 per second left, advances the level once and schedules one start, whose firing puts the next level in play with that level's time limit and a fully alive batch of that level's size |
| `Router.RouteOf` | src/router/index.ts:7-79 | `/`, `/game-play`, `/game-over` and `/game-won` map to their own routes, each route is reached from its path alone, and any other path falls to the catch-all |
| `Router.GamePlayGuard` | src/router/index.ts:17-30 | `/game-play` admits exactly while playing, paused, or between levels (level above 1, not over, not won); otherwise it redirects home |
| `Router.GameOverGuard` | src/router/index.ts:36-51 | `/game-over` admits exactly when lost; otherwise it redirects to play while active, else to the won screen if won, else home |
| `Router.GameWonGuard` | src/router/index.ts:57-72 | `/game-won` admits exactly when won; otherwise it redirects to play while active, else to the lost screen if lost, else home |
| `Router.Navigate` | src/router/index.ts:7-79 | a navigation always ends on a route that admits the state: unknown paths go home, admitted routes stay, refused routes go to their redirect target |
| `Router.RedirectSettles` | src/router/index.ts:20-70 | every redirect target admits the same state, so navigation settles after one redirect |
| `Router.RedirectNeverLoops` | src/router/index.ts:39-70 | no guard redirects to its own route |
| `Router.GuardsReadOnlyPhase` | src/router/index.ts:18-71 | the decisions depend only on the four flags and the level |
| `Router.IdleStateGoesHome` | src/router/index.ts:17-78 | in the reset state every guarded route and every unknown path lead home |
| `Router.GuardsFollowPhase` | src/router/index.ts:17-72 | when game-over and game-won exclude each other and playing, the play screen admits exactly during a level, its pause, a level transition, or whenever the pause flag is set (so only those three phases when it is clear), and each end screen admits exactly in its phase |
| `Router.PausedWinOpensPlayScreen` | src/router/index.ts:17-30 | spiking the last bug of level 4 while paused wins with the pause flag kept, and then both the won screen and the play screen admit |
| `Router.EndScreensExclusive` | src/router/index.ts:36-72 | the lost and won screens never both admit, and neither admits during play |
| `Language.FindLanguage` | src/stores/language.ts:28 | a found language is in the list with the code; none found means no listed code matches |
| `Language.SupportedCodes` | src/stores/language.ts:15-18 | exactly `en` and `es` are supported |
| `Language.InitialStateSupported` | src/stores/language.ts:13-18 | the initial `es` is supported |
| `Language.FirstTwo` | src/stores/language.ts:27 | `slice(0, 2)` is a prefix of at most two characters |
| `Language.GetBrowserLanguage` | src/stores/language.ts:26-29 | the result is always supported: the locale's first two characters when they are supported, else `en` |
| `Language.SetLanguage` | src/stores/language.ts:34-38 | a supported code becomes current; any other code changes nothing |
| `Language.SetLanguageIdempotent` | src/stores/language.ts:34-38 | setting the same code twice equals setting it once |
| `Language.SetLanguageKeepsSupported` | src/stores/language.ts:34-38 | a supported current language stays supported |
| `Language.InitializeLanguage` | src/stores/language.ts:43-48 | afterwards the current language is supported; a supported one is kept, anything else becomes the browser language |
| `Language.FirstVisitKeepsInitial` | src/stores/language.ts:13-48 | initializing from the initial state keeps `es` under any locale, so the browser language is never adopted on a first visit |
| `Language.InitializeLanguageIdempotent` | src/stores/language.ts:43-48 | initializing again, under any locale, changes nothing |

## Left out

- Pinia and Vue reactivity, and `persist: true` storage of both stores: framework plumbing. The model's functions accept any `GameState`, including one restored mid-level.
- The cache and version utilities, the DevTools console script, the `useLanguage` composable, the i18n set-up, the build configuration and the bootstrapping are not part of this model. They are I/O, configuration, or a copy of the language logic tied to vue-i18n.
- Direct calls from views to `completeLevel`, `gameOver`, `startLevel` and `generateBugs` are not events of `GameSession`. The views that might make them are not part of this model. The functions themselves are modelled, and each is reached through the events that call it in the store.
- Floating-point arithmetic: positions, speeds and velocities are exact reals. Score, level and time are unbounded integers, because the values the game reaches are far below 2^53.
- `Math.sqrt` is the caller-supplied `hypot`, about which nothing is assumed. The arrival test `distance < 20` and the normalisation use it as the code does.
- Random draws come one record per bug. In the code, a draw is taken only when its branch runs, so which draw feeds which branch can shift. In the model, each branch reads its own field.
- Timing: the 2-second delay, the one-second tick cadence and the frame rate are not modelled. Events come in any order.
- Router: vue-router's default matching ignores a trailing slash and letter case. Only exact paths are modelled. The unused `to`/`from` guard arguments and lazy view loading are left out.
- Language: the display names are kept but the flag emoji are left out, since they are display-only.
- Level numbers that are not integers (possible only from a hand-edited persisted state) are not modelled. The level is an integer.
