# SushiNeko game core in Dafny

SushiNeko is a one-screen arcade game. A tower of sushi pieces stands on a
base piece. Each piece has chopsticks sticking out on its Left or Right, or
has none (None). The player taps the left or right half of the screen. The
cat character moves to that side and cuts the bottom piece. If the bottom
piece's chopsticks are on the side the cat stands on, the cat is hit and the
game is over. Otherwise the score and the health bar go up, the bottom piece
leaves the tower and a new generated piece is stacked on top. Every frame
the health bar drains a little, and an empty bar also ends the game.

This project models that core, as found in `SushiNeko/GameScene.swift`:

- `pieces.dfy`, module `Pieces`: the `Side` of a piece and the generation
  rule. A sided top piece forces a None piece. On a None top, the random
  draw gives Left, Right or None with odds 45 : 45 : 10. The module also
  states the tower invariant that no two neighbouring pieces both have a
  side.
- `rules.dfy`, module `Rules`: the game state (`Title`, `Ready`,
  `Playing`, `GameOver`) and one session as a value (tower, state, score,
  health, the character's side). It defines what setup, a touch event, a
  frame tick and the play button do to a session. It also defines the
  session invariant `Inv` that all of them keep.
- `game_scene.dfy`, module `Scene`: the class `GameScene`. Its fields are
  the ones the Swift scene updates in place. Its methods are the scene's
  handlers, written as the same step-by-step updates (appending to and
  removing from the tower, the generation loop, the loop over touches).
  The handlers (the constructor, `TouchesBegan`, `Cut`, `Update` and
  `PressPlay`) are proved to end in the session that the matching `Rules`
  function computes, and to keep `Inv`. `GameOver` is proved to end in
  `Rules.EndGame`. The tower helpers `AddTowerPiece` and `AddRandomPieces`
  are proved to append one piece and to equal `Pieces.Extend`.

Abstractions:

- Health is a `CGFloat` in the source. Here it is an integer count of
  hundredths: 100 is a full bar, a cut adds 10, a frame takes 1.
- The random draw `CGFloat.random(min: 0, max: 1.0)` becomes a
  caller-supplied `Roll`, a natural number equal to `floor(rand * 100)`.
  `rand < 0.45` holds exactly when `roll < 45`, and `rand < 0.9` exactly
  when `roll < 90`. No upper bound is imposed, so a draw of exactly 1.0
  (roll 100) gives None, as in the source.
- A touch event's `Set<UITouch>` becomes a sequence of x positions, handled
  in order. Roll k is used if touch k stacks a new piece.
- The play button's handler is a closure. Before game over it sets the
  state to Ready. `gameOver` replaces it with one that presents a fresh
  scene. Nothing leaves `GameOver` except that restart
  (`EndedGameIgnoresInput`, `GameOverIsFinal`). So `Press` picks the handler by
  testing for `GameOver`. The restart re-runs the scene's setup on the same
  object.
- The character's initial side is set in `Character.swift`, which is not
  part of this model. It starts as Left here. Every touch sets the side
  before comparing it, so the initial value never affects a collision.

Details of the source the model keeps:

- A cut adds 0.1 health with no cap. Only the next frame's update caps
  health at 1.0. So health can exceed full between a touch and the next
  frame, and is at most full after every frame while playing.
- The frame update ends the game when health is below zero
  (`health < 0`). Health exactly zero does not end it.
- Restarting presents a freshly loaded scene. Its state starts at Title.
- Before game over, the play button's handler sets Ready whatever the
  current state is.

## Model

| member | source | states |
|---|---|---|
| Pieces.NextSide | SushiNeko/GameScene.swift:186-207 | when the top piece has a side (Left or Right), the generated piece is always None |
| Pieces.Extend | SushiNeko/GameScene.swift:181-209 | adding n generated pieces lengthens the tower by n and keeps the old pieces as they were; each new piece is the generation rule applied to the piece just below it and its roll; a tower with no two neighbouring sided pieces still has none afterwards |
| Pieces.DropBottomKeepsNoAdjacent | SushiNeko/GameScene.swift:124 | removing the bottom piece keeps the no-neighbouring-sided-pieces invariant |
| Pieces.EmptyTopShares | SushiNeko/GameScene.swift:194-206 | on a None top, among rolls 0..n-1, exactly min(n,45) give Left, min(n,90)-min(n,45) give Right and the rest give None; this fixes the thresholds 0.45 and 0.9 |
| Pieces.SidedTopShares | SushiNeko/GameScene.swift:189-191 | on a sided top, every roll gives None |
| Pieces.GenerationOdds | SushiNeko/GameScene.swift:189-206 | over the hundred whole-percent rolls: None top gives 45 Left, 45 Right and 10 None; sided top gives 100 None |
| Rules.Initial | SushiNeko/GameScene.swift:59-62 | after setup the tower holds 12 pieces: None, Right, then a forced None, and each of pieces 2..11 is the generation rule applied to the piece below it and its roll; the state is Title, score 0, health full; the session invariant holds |
| Rules.TouchSide | SushiNeko/GameScene.swift:98-103 | a touch puts the character on Right exactly when x > width/2, otherwise on Left (the midpoint counts as Left); never None |
| Rules.EndGame | SushiNeko/GameScene.swift:211-214 | game over sets the state to GameOver and leaves tower, score, health and the character's side as they were |
| Rules.EndedGameIgnoresInput | SushiNeko/GameScene.swift:85 | a finished game stays finished: a touch event (line 85) or a frame (line 142) leaves the game-over session unchanged |
| Rules.Chop | SushiNeko/GameScene.swift:105-128 | a touch while playing collides exactly when the character's side equals the bottom piece's side; a collision ends the game and leaves tower, score and health unchanged; otherwise score +1 and health +0.1 with no cap, old pieces 1..n-1 become 0..n-2, and one generated piece is stacked on the old top; tower length and the session invariant are kept |
| Rules.Touches | SushiNeko/GameScene.swift:94-137 | an event that ends in game over leaves the character on the side of the bottom piece it collided with; the tower length is unchanged; the state ends Playing or GameOver; the score rises by at most the number of touches, and by exactly that many when no collision happened; the session invariant is kept |
| Rules.TouchesInOrder | SushiNeko/GameScene.swift:94-116 | touches are handled in order: if the first touch collides, the event ends there in game over with tower, score and health untouched and the remaining touches ignored; otherwise the rest are handled from the session after that cut |
| Rules.TouchesSplit | SushiNeko/GameScene.swift:94-116 | handling touches xs followed by ys equals handling xs and then, unless that ended the game, handling ys from the resulting session; so a collision ends the event and the touches after it are ignored |
| Rules.Touched | SushiNeko/GameScene.swift:83-90 | a touch event on the title screen or after game over changes nothing; on the ready screen it first moves to Playing; in Ready or Playing its touches are then handled as `Touches` describes, so the tower length is kept, the score rises by at most the number of touches (exactly that many without a collision), and a collision leaves the character on the bottom piece's side; the score never drops; the session invariant is kept |
| Rules.Tick | SushiNeko/GameScene.swift:140-151 | outside Playing a frame changes nothing; while Playing, health drops by 0.01 and is capped at 1.0, so it is at most full afterwards; the game ends exactly when the new health is below zero; tower and score are unchanged; the session invariant is kept |
| Rules.Press | SushiNeko/GameScene.swift:75-79 | before game over the play button moves to Ready and leaves tower, score, health and the character's side alone; after game over it restarts with the setup session (Title, score 0, full health, fresh 12-piece tower) |
| Rules.Run | SushiNeko/GameScene.swift:83-151 | over any sequence of touch events and frames the session invariant holds after each handler, the score never decreases, a finished game stays as it is, and the title screen is left only by the play button |
| Rules.GameOverIsFinal | SushiNeko/GameScene.swift:85 | once a run of events has reached game over, any further touches and frames leave the session unchanged |
| Scene.GameScene.constructor | SushiNeko/GameScene.swift:49-62 | a new scene, with the field defaults and the tower seeded with None, Right and ten generated pieces, is the setup session and satisfies the invariant |
| Scene.GameScene.AddTowerPiece | SushiNeko/GameScene.swift:153-179 | appends the piece on top of the tower; nothing else changes |
| Scene.GameScene.AddRandomPieces | SushiNeko/GameScene.swift:181-209 | the loop leaves the tower equal to the old tower extended by one generated piece per roll; nothing else changes |
| Scene.GameScene.GameOver | SushiNeko/GameScene.swift:211-214 | sets the state to GameOver; nothing else changes |
| Scene.GameScene.TouchesBegan | SushiNeko/GameScene.swift:83-138 | the in-place touch handler, looping over the touches and returning at the first collision, ends in the session `Rules.Touched` describes and keeps the invariant |
| Scene.GameScene.Cut | SushiNeko/GameScene.swift:99-128 | the in-place handling of one touch ends in the session `Rules.Chop` describes and keeps the invariant |
| Scene.GameScene.Update | SushiNeko/GameScene.swift:140-151 | the in-place frame update ends in the session `Rules.Tick` describes and keeps the invariant |
| Scene.GameScene.PressPlay | SushiNeko/GameScene.swift:75-79 | the play button handler ends in the session `Rules.Press` describes, including the restart installed by game over (lines 225-240), and keeps the invariant |

## Left out

- Scene-graph lookups and casts in `didMoveToView` (lines 50-58) and the base piece's `connectChopsticks`: these are framework calls, not game rules.
- The particle emitter loaded from a file (lines 64-73): file I/O and rendering.
- All `SKAction` animations, the piece `flip`, turning pieces and the character red, and the `didSet` observers that update the score label and health bar (lines 37-47): presentation only.
- Piece pixel positions (+55 per piece) and `zPosition` bookkeeping (lines 164-169, 135): they only affect drawing order.
- The random source `CGFloat.random`: replaced by a caller-supplied roll. Its inclusive or exclusive upper end is defined outside this file. Both cases are covered, because any roll of 90 or more gives None.
- Exact `CGFloat` rounding of health: replaced by integer hundredths. Repeated float subtraction of 0.01 could reach zero a frame earlier or later than the exact count.
- Restart by `presentScene` of a newly loaded scene (lines 225-240): modelled as re-running setup on the same object, not as replacing the scene object.
- The order in which a `Set<UITouch>` is iterated: the model takes the touches as a sequence in a given order.
- The unused `time` field and the scene's size: the width is a parameter of each touch event.
- Rules.Chop: requires at least two pieces in the tower. With one piece the source would crash on `sushiTower.last` after `removeFirst`. The invariant keeps twelve pieces, so this never happens.
- Scene.GameScene.AddRandomPieces: requires `total >= 1` and a non-empty tower. The source traps in both cases: Swift's `1...total` cannot form a range when `total < 1`, and `lastPiece.side` on line 190 unwraps a missing last piece when the tower is empty. Every call in the scene passes 1 or 10 on a non-empty tower.
