# DinoCol game cores in Dafny

DinoCol is a browser runner game with a small leaderboard backend. This
project models three of its parts as pure functions and methods over
immutable values, and proves what they guarantee.

- **`SpriteGame`** (`sprite_game.dfy`) models the sprite game in
  `src/app/DinoGame.tsx`. Each React callback becomes one pure function over a
  `World` record: the jump and duck key handlers, the animation-frame loop
  (gravity, move and cull, collision pass), the 50 ms obstacle timer, the
  100 ms score timer, the 1000 ms spawn timer, the sprite timer and restart.
  `Step` applies whichever one fires. `Math.random()` and `Date.now()` are
  fields of the spawn event. Positions, velocity and speed are exact reals.
  - The source has two hitbox layouts, the frame loop's and the obstacle
    timer's. Both are named geometry functions (`DinoBox`, `ObstacleBox`).
  - A collision pass checks each obstacle in the snapshot the callback was
    created with, at the position from before this frame. It applies each
    hit to the current state: a snack gives +20, a bird is ignored while
    ducking, anything else costs a life. The hit obstacle's id is then
    removed, as the code does.
- **`CanvasGame`** (`canvas_game.dfy`) models the canvas game in
  `src/components/Game.tsx`, entirely in integers:
  - the jump force that drops by one per frame, with a snap back to y = 150;
  - move, then cull obstacles with `x + width <= 0`;
  - a deterministic respawn at x = 400;
  - game over on any hit;
  - the frame counter that is the score, with speed `5 + score / 100`;
  - the Space key and the Play Again button.
- **`HighScores`** (`high_scores.dfy`) models `src/lib/db.ts`. The
  leaderboard table is a map from Twitch id to row. `UpdateHighScore` is
  the upsert. `GetLeaderboard` returns the rows with the highest scores,
  best first, projected to name, image and score.
- **`Order`** (`order.dfy`) holds the integer `Max` and `Min` used by the
  canvas hit test and the leaderboard limit.
- **`Sequences`** (`sequences.dfy`) holds an order-preserving `Filter` and
  the subsequence relation. Both games use them to state that culling and
  removal keep order and add nothing.

The spawn draw splits [0, 1) into shares of 70% cactus, 15% bird and 15%
snack. The code gives snacks 15%; a comment in the source says 5%.

## Model

| member | source | states |
|---|---|---|
| SpriteGame.Jump | src/app/DinoGame.tsx:31-37 | reading the current `ducking`: a jump starts only when not jumping, not ducking and not over; it sets velocity -100 and `isJumping`, and nothing else changes; otherwise nothing changes |
| SpriteGame.JumpAsWritten | src/app/DinoGame.tsx:31-37 | the jump key as wired reads the `ducking` captured when the listeners were last registered (line 79 re-registers them only when `isJumping` or `gameOver` changes); it changes only velocity and `isJumping`, and with an up-to-date capture it is exactly `Jump` |
| SpriteGame.StaleDuckJumpsWhileDucking | src/app/DinoGame.tsx:31-79 | ArrowDown then Space in a fresh game: as written the dino jumps while ducking, releasing ArrowDown in the air is ignored, and birds cannot damage it; the corrected `Jump` refuses that jump |
| SpriteGame.JumpIgnoresRepeats | src/app/DinoGame.tsx:31-37 | a repeated jump request before landing has no further effect |
| SpriteGame.Duck | src/app/DinoGame.tsx:39-43 | ducking changes only when the game is not over and the dino is not jumping; otherwise nothing changes |
| SpriteGame.JumpAndDuckExclude | src/app/DinoGame.tsx:31-43 | in the model, where the jump reads the current `ducking`, neither handler can make the dino jump and duck at once (the guard's evident intent; as wired the jump key can, see Findings) |
| SpriteGame.DuckingMeansGrounded | src/app/DinoGame.tsx:39-43 | in every state the model reaches, a ducking dino is on the ground; this rests on the corrected `Jump` |
| SpriteGame.Restart | src/app/DinoGame.tsx:45-56 | restart gives score 0, lives 1, speed 1, no obstacles, y 0, velocity 0, not jumping, not ducking, not over, sprite frame 0 |
| SpriteGame.RestartIsFreshMount | src/app/DinoGame.tsx:45-56 | restart yields exactly the state the component mounts with (lines 11-20), and that state is well formed |
| SpriteGame.AdvanceSprite | src/app/DinoGame.tsx:58-63 | the sprite index cycles 0, 1, 2, 0 and nothing else changes |
| SpriteGame.Integrate | src/app/DinoGame.tsx:140-152 | after a gravity step y <= 0; a step whose y + v + 0.6 is positive clamps y to 0 and clears `isJumping`; velocity is zeroed only when the unclamped y is exactly 0; nothing else changes |
| SpriteGame.GroundedVelocityAccumulates | src/app/DinoGame.tsx:140-152 | a standing dino stays on the ground while its velocity keeps growing by 0.6 per frame, because landing does not reset velocity |
| SpriteGame.MoveAndCull | src/app/DinoGame.tsx:155-159 | every survivor has left > -50; an obstacle survives, moved left by exactly `speed`, if and only if its new left is > -50; every copy of a surviving moved obstacle is kept and no other; the result is a subsequence of the moved list, so ids, kinds and order are kept |
| SpriteGame.SurvivorsCameFromInput | src/app/DinoGame.tsx:155-159 | nothing is added: each survivor is an input obstacle moved by `speed` |
| SpriteGame.PastEdgeIsCulled | src/app/DinoGame.tsx:259-263 | an obstacle already at or past left = -50 is gone after the next move |
| SpriteGame.MoveAndCullKeepsBounds | src/app/DinoGame.tsx:155-159 | with non-negative speed, obstacles at or left of the right edge stay within (-50, 800] |
| SpriteGame.Classify | src/app/DinoGame.tsx:223-231 | a draw below 0.7 gives a cactus, one in [0.7, 0.85) a bird, and any other a snack |
| SpriteGame.ClassifyFollowsBands | src/app/DinoGame.tsx:223-231 | a per-kind band table splits [0, 1) without gaps into 70/15/15, and every draw in [0, 1) falls in the band of the kind it spawns |
| SpriteGame.Spawn | src/app/DinoGame.tsx:220-241 | while the game runs, exactly one obstacle is appended, with the given id and drawn kind at left = 800, and the existing obstacles are unchanged; after game over nothing changes |
| SpriteGame.DinoBox | src/app/DinoGame.tsx:162-167 | the dino's box starts at x = 100, has positive size, and lies in the 48-pixel column above the ground line shifted by y (both layouts) |
| SpriteGame.ObstacleBox | src/app/DinoGame.tsx:170-175 | obstacle boxes have positive size and start within 45 px of `left`; birds end at or above y = 140; other kinds stand on the ground line y = 200 (both layouts) |
| SpriteGame.DuckingWidensAndLowers | src/app/DinoGame.tsx:265-270 | ducking makes the dino's box wider and shorter and lowers its top, in both layouts |
| SpriteGame.IsColliding | src/app/DinoGame.tsx:243-253 | for boxes of positive size the strict test holds iff the intersection of the two boxes has positive width and height; any collision needs the widths and heights to add up to something positive |
| SpriteGame.ZeroSizeBoxCanCollide | src/app/DinoGame.tsx:243-253 | a zero-size box at (5, 5) strictly inside a 10 by 10 box collides with it, so "a zero-width box never collides" is not a property of this test |
| SpriteGame.CollidingIsSymmetric | src/app/DinoGame.tsx:243-253 | the hit test gives the same answer with its arguments swapped |
| SpriteGame.TouchingDoesNotCollide | src/app/DinoGame.tsx:243-253 | boxes that only share an edge never collide, nor do two boxes whose widths or heights sum to zero or less |
| SpriteGame.CollidingMeansSharedPoint | src/app/DinoGame.tsx:243-253 | for boxes of positive size, the strict test holds if and only if some point lies strictly inside both |
| SpriteGame.BirdsPassOverGroundedDino | src/app/DinoGame.tsx:265-278 | in either layout, a dino on the ground is never hit by a bird, ducking or not |
| SpriteGame.GroundObstacleWindow | src/app/DinoGame.tsx:162-181 | a standing grounded dino is hit by a ground obstacle exactly when 60 < left < 148 (frame layout) or 55 < left < 135 (timer layout) |
| SpriteGame.RemoveId | src/app/DinoGame.tsx:188 | removing an id keeps every copy of each obstacle with another id and nothing else, in order |
| SpriteGame.Resolve | src/app/DinoGame.tsx:183-196 | a snack adds exactly 20 and removes that id, leaving lives and game over alone; a bird while ducking changes nothing; any other hit costs one life, removes that id, and sets game over when lives reach 0 or below |
| SpriteGame.OneHitEndsGame | src/app/DinoGame.tsx:189-196 | with the single life a game starts with (line 18), one damaging hit sets lives to 0 and ends the game |
| SpriteGame.CollisionPass | src/app/DinoGame.tsx:272-295 | a pass adds 20 per snack hit and removes one life per damaging hit, counted independently by filtering the snapshot; game over is set iff it was already set or a damaging hit leaves lives <= 0; the obstacles left are exactly every copy of those whose id no effective hit (any hit except a bird while ducking) carries, in order; dino, speed and sprite are untouched |
| SpriteGame.UnhitObstaclesSurvive | src/app/DinoGame.tsx:183-196 | an obstacle whose id no effective hit of the pass carries keeps every copy it had |
| SpriteGame.HitObstaclesAreRemoved | src/app/DinoGame.tsx:280-293 | after a pass, no obstacle is left carrying the id of one whose effect was applied, so no effect fires twice |
| SpriteGame.CollisionPassKeepsWellFormed | src/app/DinoGame.tsx:183-196 | a collision pass preserves the session invariant (game over iff lives <= 0, lives at most 1, bounds) |
| SpriteGame.SpeedFor | src/app/DinoGame.tsx:215 | the speed formula never exceeds 10, is at least 6 for non-negative scores, and hits 10 exactly from score 800 on |
| SpriteGame.SpeedIsMonotone | src/app/DinoGame.tsx:215 | the speed formula is non-decreasing in the score |
| SpriteGame.SpeedStepsEveryHundred | src/app/DinoGame.tsx:215 | 100 more points add exactly 0.5 to the speed, up to the cap |
| SpriteGame.ScoreTick | src/app/DinoGame.tsx:211-218 | while the game runs, a score tick adds exactly 1 and sets the speed from the current score; after game over nothing changes |
| SpriteGame.ScoreTickAsWritten | src/app/DinoGame.tsx:211-218 | the tick as wired adds 1 but takes the speed from the score captured when the timer was created; no other field changes, and after game over nothing changes |
| SpriteGame.StaleScoreFreezesSpeed | src/app/DinoGame.tsx:211-218 | at score 800 or more, the tick as written still gives speed 6 (session starts at 0), where the corrected tick gives 10 |
| SpriteGame.AnimationFrame | src/app/DinoGame.tsx:135-199 | a frame applies gravity to the dino; it scores 20 per snack and costs one life per damaging hit among the obstacles as they stood before the frame, tested at the old position; it sets game over iff already over or a damaging hit leaves lives <= 0; it keeps exactly the moved survivors whose id no effective hit carries, in order; every obstacle left has left > -50 |
| SpriteGame.ObstacleTick | src/app/DinoGame.tsx:256-298 | after game over the timer changes nothing; otherwise it scores 20 per snack and costs one life per damaging hit among the obstacles before the move, with the tighter layout; it sets game over iff a damaging hit leaves lives <= 0; it keeps exactly the moved survivors whose id no effective hit carries, in order; the dino is untouched |
| SpriteGame.Step | src/app/DinoGame.tsx:357-366 | a restart takes effect only on the game-over overlay and then gives the mount state, otherwise nothing changes; no other event lowers the score or restores a life |
| SpriteGame.StepKeepsWellFormed | src/app/DinoGame.tsx:135-241 | every callback of the model (with the corrected score tick and jump) preserves the session invariant: y <= 0, on the ground with non-negative velocity unless jumping, never jumping and ducking at once, lives <= 1, over iff lives <= 0, speed in [1, 10], obstacles within (-50, 800] |
| SpriteGame.ScoreNeverDecreases | src/app/DinoGame.tsx:184-216 | no callback other than restart lowers the score |
| SpriteGame.CactusScenario | src/app/DinoGame.tsx:265-295 | from a fresh game with speed 6, a cactus at the dino's position costs the only life on the next obstacle tick, ends the game and is removed, with score still 0 |
| CanvasGame.PressSpace | src/components/Game.tsx:125-129 | Space arms a jump (jumping, force 15) only when not already jumping; otherwise it does nothing |
| CanvasGame.PressSpaceKeepsOnArc | src/components/Game.tsx:125-129 | arming from any reachable dino state leaves the dino on a jump arc from the ground |
| CanvasGame.FallSnapsToGround | src/components/Game.tsx:50-59 | a jumping frame never leaves the dino below y = 150; landing on it clears `jumping` and the force; a standing dino is untouched |
| CanvasGame.RiseClosedForm | src/components/Game.tsx:50-53 | after k frames a grounded jump has risen exactly k(31 - k)/2 |
| CanvasGame.RiseBounds | src/components/Game.tsx:50-53 | in the first 30 frames the rise is positive and at most 120, reached only at frames 15 and 16 |
| CanvasGame.JumpArc | src/components/Game.tsx:50-59 | for k <= 30 frames after arming on the ground, the dino is still jumping with force 15 - k at y = 150 - rise(k), all else unchanged |
| CanvasGame.JumpHeightBounds | src/components/Game.tsx:50-59 | throughout the jump 30 <= y <= 150, with y = 30 exactly at frames 15 and 16 |
| CanvasGame.JumpLandsAfter31Frames | src/components/Game.tsx:50-59 | a jump armed on the ground is airborne for frames 0..30 and lands on frame 31, back in the starting state |
| CanvasGame.FallKeepsOnArc | src/components/Game.tsx:50-59 | a frame keeps a reachable dino on a jump arc or on the ground |
| CanvasGame.OnArcBounds | src/components/Game.tsx:50-59 | every reachable dino has 30 <= y <= 150 and, when not jumping, stands on the ground with force 0 |
| CanvasGame.MoveAndCull | src/components/Game.tsx:61-70 | every survivor has x + width > 0; an obstacle survives, moved by exactly `speed`, if and only if its new right edge is > 0; every copy of a surviving moved obstacle is kept and no other; the result is a subsequence of the moved list, so order is kept |
| CanvasGame.SurvivorsCameFromInput | src/components/Game.tsx:61-70 | nothing is added: each survivor is an input obstacle moved by `speed` |
| CanvasGame.Spawn | src/components/Game.tsx:72-81 | {400, 150, 20, 40} is appended when the list is empty or its last x is below 200, and the list is unchanged otherwise; afterwards the list is non-empty and its last x >= 200 |
| CanvasGame.AdvanceKeepsObstacleShape | src/components/Game.tsx:61-81 | every obstacle keeps the spawned shape and stays at or left of x = 400 |
| CanvasGame.Hits | src/components/Game.tsx:85-91 | for positive sizes the strict test holds iff the intersection of dino and obstacle has positive width and height; any hit needs the widths and heights to add up to something positive |
| CanvasGame.Advance | src/components/Game.tsx:50-81 | the stages before the collision check update only the dino (one jump-physics step) and the obstacles, which become the moved survivors followed by at most one spawn (`Spawn` of `MoveAndCull`); afterwards the list is non-empty, its last x >= 200, and every obstacle is still on screen (x + width > 0) |
| CanvasGame.GroundedHitWindow | src/components/Game.tsx:84-91 | a grounded dino is hit by a spawned obstacle exactly when 30 < x < 100 |
| CanvasGame.HighEnoughClears | src/components/Game.tsx:84-91 | a dino at y <= 100 clears every spawned obstacle |
| CanvasGame.Tick | src/components/Game.tsx:41-115 | after game over a frame changes nothing; a hit sets game over with score, shown score and speed unchanged; otherwise no obstacle overlaps the dino, score grows by exactly 1, speed is 5 + score/100, and the shown score is refreshed only on multiples of 5 |
| CanvasGame.ShownScoreRoundsDown | src/components/Game.tsx:109-112 | refreshing the display on multiples of 5 keeps it equal to the score rounded down to a multiple of 5 |
| CanvasGame.TickKeepsScoreBookkeeping | src/components/Game.tsx:108-113 | across a frame the score stays non-negative, speed stays 5 + score/100, and the shown score stays the score rounded down to a multiple of 5 |
| CanvasGame.SpeedNeverDecreases | src/components/Game.tsx:113 | in a reachable state speed is at least 5 and a frame never lowers it |
| CanvasGame.PlayAgain | src/components/Game.tsx:182-188 | Play Again sets score and shown score to 0, empties the obstacles, sets speed 5, clears game over and leaves the dino as it was |
| CanvasGame.PlayAgainRestartsRun | src/components/Game.tsx:182-188 | Play Again gives the initial game with the old dino |
| CanvasGame.Step | src/components/Game.tsx:175-194 | Play Again acts only on the game-over screen and gives the initial game with the old dino, otherwise nothing changes; Space changes only the dino and does nothing mid-jump; no other input lowers the score |
| CanvasGame.StepKeepsWellFormed | src/components/Game.tsx:41-129 | Space, frames and Play Again preserve the session invariant (dino on an arc, speed and shown score tied to score, obstacles of spawned shape at x <= 400) |
| HighScores.UpdateHighScore | src/lib/db.ts:27-58 | an absent user is inserted with exactly the given name, image and score; an existing user with a strictly higher score gets all three replaced; otherwise the row is unchanged; every other row is unchanged and no user disappears |
| HighScores.UpdateKeepsBest | src/lib/db.ts:36-53 | afterwards the user's high score is max(old, new), or new for a fresh user, and no stored score goes down |
| HighScores.UpdateIsIdempotent | src/lib/db.ts:36-53 | submitting the same result twice is the same as once |
| HighScores.ReplayKeepsBestOfHistory | src/lib/db.ts:27-58 | after any history of submissions a user has a row iff they submitted, and the row's high score is the best they ever submitted |
| HighScores.Insert | src/lib/db.ts:66 | inserting into a best-first ranking keeps it best-first and adds exactly that id |
| HighScores.Rank | src/lib/db.ts:63-66 | ranking lists every row exactly once, best score first |
| HighScores.GetLeaderboard | src/lib/db.ts:60-72 | a negative limit is rejected; otherwise min(limit, rows) entries are returned, best first, each a name/image/score projection of a distinct row, and no row left out beats a returned one |
| HighScores.GetDefaultLeaderboard | src/lib/db.ts:60-72 | without a limit, min(10, rows) entries are returned, best first, each a name/image/score projection of a distinct row, and no row left out beats a returned one |

## Left out

- Rendering, asset and audio preloading, sound playback, canvas drawing and JSX are left out: they are presentation and side effects.
- Timer periods are not modelled (rAF, and intervals of 50, 100, 120 and 1000 ms), nor how they interleave. The caller picks the next event for `SpriteGame.Step` and `CanvasGame.Step`.
- React scheduling is not modelled: nested `setState` updaters, batching and effect re-subscription. Each callback is one atomic step on one state.
- The frame body has no game-over guard, and `SpriteGame.AnimationFrame` keeps it that way. Whether frames keep arriving after game over depends on effect re-subscription, which is not modelled.
- The 50 ms obstacle timer's effect depends on `obstacles` (DinoGame.tsx line 298), and the frame loop replaces that array every frame, so in the page the timer is reset long before it fires. The model lets `MoveTimer` fire at any point, which covers more interleavings than the page produces.
- The restart button exists only on the game-over overlay, so `SpriteGame.Step` applies a restart only after game over.
- IEEE floating point is not modelled. The 0.6 gravity, the 0.5 speed step and the 0.7/0.85 thresholds are exact reals.
- `Math.random()` and `Date.now()` are not modelled: they are spawn-event parameters. Ids are not assumed unique; removal drops every obstacle with the hit id.
- The timestamp passed to the animation-frame callback and `deltaTime` are left out: the step uses neither.
- CanvasGame.Tick: a frame after game over changes nothing. This stands for the source not requesting another animation frame after a hit (Game.tsx line 94); the frame body itself has no such guard.
- CanvasGame.Fall has no contract of its own. The jump lemmas and `FallSnapsToGround` state its behaviour.
- Game.tsx lifecycle is left out: after Play Again the frame loop is not rescheduled, and `onGameOver` receives the `score` state captured when `gameLoop` was created. Neither is part of the per-frame logic.
- Game.tsx's leaderboard and init-db fetches are left out: they are I/O.
- db.ts SQL, the connection pool, timestamps and `createLeaderboardTable` are left out: they are I/O and DDL.
- The read-then-write race in `updateHighScore` is left out: it is a concurrency concern.
- The table is assumed to hold one row per `twitch_id`, so it is a map. db.ts creates the column without UNIQUE; the leaderboard route creates it with UNIQUE.
- The INTEGER column's 32-bit range is not modelled.
- HighScores.GetLeaderboard: the order among equal scores is unspecified, as in SQL. The model fixes one order.
- src/components/Leaderboard.tsx, src/app/api/leaderboard/route.ts, src/app/api/init-db/route.ts and src/contexts/AuthContext.tsx are not part of this model. They hold presentation, JWE decryption, HTTP handling and a fetch-and-store context.
- Several features have no code to check against: a fixed-step time accumulator, pause, an apex clamp on jumps, clustered spawns, a separate resolved-id set and an event stream. Removing a hit obstacle by id gives the at-most-once effect (`HitObstaclesAreRemoved`).

## Findings

| source | as written | input that shows it | evidently intended | confidence | as-written member | corrected member |
|---|---|---|---|---|---|---|
| src/app/DinoGame.tsx:211-218 | the score timer computes speed from `score` captured when the interval was created; the effect only re-runs when `gameOver` changes, so the captured score is the session's starting 0 and speed is `min(6 + 0, 10) = 6` on every tick | a session reaching score 800: speed is still 6 | speed follows the current score and reaches 10 from score 800 on (the comment says "Increment speed slower and cap at 10") | not executed; high | SpriteGame.ScoreTickAsWritten | SpriteGame.ScoreTick |
| src/app/DinoGame.tsx:31-37 | the jump handler checks `!ducking`, but the key listeners that call it are re-registered only when `isJumping` or `gameOver` changes (line 79), so it reads a `ducking` captured before the duck key was pressed | ArrowDown, then Space, in a fresh game: the dino jumps while ducking; releasing ArrowDown mid-air is ignored (line 40), and a ducking dino is not damaged by birds (line 189). On landing the listeners re-register with `ducking` still true, and releasing ArrowDown on the ground re-registers nothing, so the jump key then does nothing until game over (`JumpAsWritten(w, true) == w`) | a ducking dino cannot jump, so jumping and ducking never hold at once | not executed; high | SpriteGame.JumpAsWritten (with SpriteGame.StaleDuckJumpsWhileDucking) | SpriteGame.Jump (with SpriteGame.JumpAndDuckExclude) |
