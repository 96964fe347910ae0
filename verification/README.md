# Two-player canvas shooter: game-state model

A Dafny model of the game logic in `game.js`, the single load-time closure
of a two-player arcade shooter. Each player stands at a fixed spot and
fires round bullets across a canvas: player 1 from the left with `f`,
player 2 from the right with `l`; `p` pauses; buttons start, restart and
replay the game. The closure's mutable variables (`gameStarted`, `paused`,
the `players` array with each player's `bullets`) become one immutable
record `Session.Game`, parameterised by the integer canvas width and
height, and every handler becomes a pure function from record to record.

- `keys.dfy` (`Keys`): `toLowerCase` on key identifiers.
- `entities.dfy` (`Entities`): `Bullet` and `Player`, the starting players,
  and `shoot`.
- `update.dfy` (`Update`): one `update` pass over a player's bullets,
  reproducing `splice` inside `forEach` exactly. After a bullet is spliced
  out, the next one slides into the slot just visited and is neither moved
  nor checked in that pass. The pass also stops once the shrunken array
  runs out. `SweepFrom` walks the original list with a "skip next" flag.
  `SpliceForEach` replays the index-and-splice loop literally and is proved
  equal to it. `FateAt`/`Replay` give an index-by-index reading of the same
  pass.
- `session.dfy` (`Session`): the game record; `startGame`, `togglePause`,
  `restartGame`, `playAgain` and the keydown handler; the pause gate of
  `gameLoop`; and an event-driven `Run`. It also holds the invariant every
  reachable state keeps: players never move, every bullet is on screen and
  belongs to its shooter, and a game that is not started has no bullets
  and is not paused. This needs a canvas at least 120 wide, the point where
  player 2's muzzle (at width − 120) is still on screen.

A stable filter (move every bullet, then keep those on screen) never skips
a neighbour. The code's `splice` inside `forEach` does, and the model
follows the code. `Update.StableFilter` is that filter.
`SweepMatchesFilterIff` shows when the two agree: as long as every bullet
moves, they agree exactly when no bullet before the last one leaves the
screen. `SpliceSkipExample` is a concrete case where they differ.

Frames keep running after a restart: every start schedules one more
`requestAnimationFrame` chain, and nothing cancels one. `Game.loops`
counts these chains, and a display refresh (`DisplayFrame`) calls
`gameLoop` once per chain. `StoppedFramesChangeNothing` shows that such
frames change nothing while the game is stopped.

## Model

| member | source | states |
|---|---|---|
| Keys.Lower | game.js:25-31 | Each Basic Latin capital becomes its small letter, every other character is unchanged, and the length is kept |
| Keys.LowerIsLetter | game.js:25-31 | A key lower-cases to a one-letter string exactly when it is that letter in lower or upper case (both directions) |
| Entities.Direction | game.js:44 | Direction is +1 or −1, and +1 exactly when the shooter's id is 1 |
| Entities.HomePlayer1 | game.js:16 | Player 1 has id 1, key "f", top-left corner (100, H−50) and size 40×40; its muzzle lies within [0, width] exactly when width ≥ 120 |
| Entities.HomePlayer2 | game.js:17 | Player 2 has id 2, key "l", top-left corner (W−140, H−50) and size 40×40; its muzzle lies within [0, width] exactly when width ≥ 120 |
| Entities.Muzzle | game.js:39-45 | The new bullet is at the player's top edge, horizontally 20 into a 40-wide player, radius 5, speed 5, direction +1 iff the player's id is 1 and −1 otherwise |
| Entities.Shoot | game.js:38-46 | Exactly one bullet is added, at the end of the list; the earlier bullets and all other player fields are unchanged |
| Update.Advance | game.js:55 | A move shifts x by speed·direction and changes nothing else |
| Update.SweepFrom | game.js:54-59 | A pass never adds bullets, keeps an all-on-screen list on screen, and every survivor is an original bullet, moved once or left as it was |
| Update.Sweep | game.js:53-60 | The same three facts for a whole `update` pass over one player's bullets |
| Update.SpliceForEach | game.js:54-59 | The literal loop gives the same list as `Sweep`: the visit count is fixed at the start, index k is visited only while it is in the array, and off-screen bullets are spliced out in place |
| Update.SweepFollowsFates | game.js:54-59 | Survivors keep their original order. Bullet i is skipped (kept unmoved) exactly when bullet i−1 was removed; otherwise it is moved, and it is removed exactly when the move puts x below 0 or above the width |
| Update.SweepKeepsAllIff | game.js:55-58 | A pass moves every bullet and removes none exactly when every moved bullet has 0 ≤ x ≤ width, so x = 0 and x = width survive |
| Update.SweepMatchesFilterWithoutInnerRemoval | game.js:54-59 | When nothing before the last bullet is removed, the in-place splice gives the same list as a stable filter |
| Update.SweepKeepsAtLeastFilter | game.js:54-59 | A splice pass never keeps fewer bullets than the stable filter, whatever the skip flag |
| Update.InnerRemovalDiffersFromFilter | game.js:54-59 | When every bullet moves, a removal at any index before the last one makes the splice pass differ from the stable filter |
| Update.SweepMatchesFilterIff | game.js:54-59 | When every bullet moves, the splice pass equals the stable filter exactly when no bullet before the last one leaves [0, width] (both directions) |
| Update.SpliceSkipsNeighbour | game.js:57-58 | When the first bullet is spliced out, the second one heads the result unmoved |
| Update.SpliceSkipExample | game.js:54-59 | Two bullets at the right edge of an 800-wide canvas: the stable filter drops both, but the source keeps the second, unmoved, for one more `update` pass |
| Update.Sweeps | game.js:52-62 | Repeated passes never add bullets and keep an all-on-screen list on screen |
| Update.LoneBulletFlight | game.js:55-58 | A lone bullet is at x0 + n·speed·direction after n passes while it stays on screen, and is gone in the pass that takes it off |
| Session.Init | game.js:10-18 | At load the game is neither started nor paused, no loop runs, and the invariant holds |
| Session.StartGame | game.js:95-103 | A start sets `started` and adds one frame chain; it leaves `paused` and everything else as it was |
| Session.TogglePause | game.js:106-108 | No change before the game has started; otherwise `paused` flips and nothing else changes |
| Session.TogglePauseTwice | game.js:106-108 | Toggling the pause twice gives back the original state |
| Session.RestartGame | game.js:119-133 | After a restart the game is stopped and unpaused, both bullet lists are empty, player 1 is at (100, H−50) and player 2 at (W−140, H−50), every other player field (id, size, shoot key) is kept, and the frame chains keep running |
| Session.RestartIsInit | game.js:119-133 | From any state that satisfies the invariant, a restart gives the load-time state except for the running frame chains |
| Session.PlayAgain | game.js:139-142 | Play-again leaves the game started, unpaused, with both bullet lists empty and one more frame chain |
| Session.KeyDown | game.js:21-35 | Before a start a key press changes nothing; it never changes `started`, the frame chains or any player field besides bullets |
| Session.KeyDownWhileStarted | game.js:24-34 | After a start, "p"/"P" flips the pause, "f"/"F" makes player 1 shoot and "l"/"L" makes player 2 shoot, paused or not; nothing else is affected |
| Session.UpdateAll | game.js:52-62 | `update` changes only the two bullet lists and never lengthens either |
| Session.Frame | game.js:87-90 | A `gameLoop` call while paused changes nothing; otherwise only bullet lists change |
| Session.Frames | game.js:82-92 | Any number of `gameLoop` calls change nothing while paused and never lengthen a bullet list |
| Session.DisplayFrame | game.js:82-92 | A display refresh changes nothing while paused or before any start, and only bullets otherwise |
| Session.StoppedFramesChangeNothing | game.js:119-124 | Frames that run after a restart, with the game stopped, change nothing |
| Session.StepKeepsPlayersHome | game.js:119-133 | No event moves a player away from its starting place |
| Session.RunKeepsPlayersHome | game.js:15-18 | Player positions are the same in every state reached by any sequence of events |
| Session.SweepKeepsBulletsOk | game.js:54-58 | An update pass keeps every bullet on screen and unchanged apart from its x |
| Session.ShootKeepsBulletsOk | game.js:39-46 | With width ≥ 120, shooting keeps every bullet on screen, because both muzzles are |
| Session.FramesKeepInv | game.js:87-90 | Any number of `gameLoop` calls preserve the invariant |
| Session.StepKeepsInv | game.js:21-142 | With width ≥ 120, every key press, button click and refresh preserves the invariant |
| Session.RunKeepsInv | game.js:21-142 | With width ≥ 120, every sequence of events preserves the invariant |
| Session.Reachable | game.js:10-18 | Every state reachable from page load on a canvas at least 120 wide has all bullets at 0 ≤ x ≤ width, players at home, and no bullets or pause before a start |
| Session.PlayerOneShotCrossesCanvas | game.js:40-44 | On an 800-wide canvas, player 1's shot starts at 120, is at 170 after ten updates, at 800 after 136, and gone after 137 |

## Left out

- Drawing (`draw`, game.js:65-79): pure rendering against the canvas API; it reads the state and does not change it.
- Audio (`shootSound`, `bgMusic` play/pause/rewind): calls to media elements that the game never reads back.
- Overlay visibility and the drop animation class: DOM class toggling that the game logic never reads.
- `toggleFullScreen`: an asynchronous browser API whose failure only shows an alert.
- `requestAnimationFrame` timestamps, `lastTime` and `deltaTime`: host scheduling and floating-point time, which `update` never uses. The never-cancelled frame chains are kept only as the count `Game.loops`.
- JavaScript numbers are doubles. Every value here is an integer (canvas size, offsets, speed 5, and half of the fixed width 40), so the model uses `int`. It does not model precision loss at magnitudes above 2^53.
- Keys.LowerIsLetter: lower-casing changes only the Basic Latin capitals. No other character lower-cases to "p", "f" or "l", so the handler's comparisons are exact. `Lower` is not the full Unicode case mapping, though: the Kelvin sign (U+212A) lower-cases to "k" in JavaScript, so for the letter k the lemma's "exactly when" would miss one key.
- Keys.Lower: maps only the Basic Latin capitals. JavaScript's full mapping also turns the Kelvin sign U+212A into "k" and lengthens U+0130 to two code units ("i" plus a combining dot); neither affects "p", "f" or "l", the only strings the handler compares against.
