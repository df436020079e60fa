# Creepy maze: the maze generator and the session state

A model of the game core of the creepy-maze voice skill (`index.js`): the maze
generator `createMaze(w, h)` and the module-level session state driven by
`reset`, the play intent and the stand-up intent.

- `maze.dfy`, module `Maze`: `createMaze` as the method `CreateMaze`, with its
  nested fill loop (`DrawRow` for the inner `map`, `DrawCells` for the outer),
  proved equal to the specification function `Generate`. `Generate` is built from
  the random phase `Fill`/`FillFlag` and the two post-passes `ForceExit` and
  `PlacePlayer`. Lemmas about these functions state what the generator
  guarantees, and what it does not.
- `session.dfy`, module `Session`: the class `Game`, whose fields are the
  module-level variables `maze`, `initialized`, `standUp`, `player.position` and
  `player.life`. Its methods are `reset` and the state logic of the play and
  stand-up handlers. Each returns which narration the handler chooses.

The random source is a parameter. Each call of `Math.random()` is an injected
integer `u` with `0 <= u < RandomScale` (2^52), standing for `u / RandomScale`.
The draw index `Math.ceil(Math.random() * k) - 1` is computed exactly from it.
A value of 0 gives the index -1, and `tiles[-1]` is `undefined`, so the tile type
has an `Undefined` variant. The draws come as one row of values per maze row.

What the proofs show about the generator:

- The random phase places at most one exit, because `k` drops from 5 to 4 once
  `exitCreated` is set.
- Before the swap the grid holds exactly one exit.
- The swap of `[0][0]` into `[1][1]` loses the exit exactly when it sat at
  `[1][1]`. That happens when the random phase drew it there, or when the grid is
  2 x 2 and the exit was forced into `[1][1]`. `ExitLostExample` gives a concrete
  2 x 2 draw sequence that ends with no exit.

Notes on what `index.js` does:

- The player starts at (0, 0), and `[0][0]` holds the player marker.
- The maze is 5 x 5.
- An exit at `[1][1]` is overwritten. It is not relocated.
- `reset` does not store the new maze anywhere the rest of the skill can see.
- There is no movement, combat or healing.

## Model

| member | source | states |
|---|---|---|
| `Maze.DrawIndex` | index.js:36 | the index is `ceil(u * k / RandomScale) - 1`: `i * RandomScale < u * k <= (i + 1) * RandomScale`, so `-1 <= i < k`, and `i == -1` exactly when `Math.random()` returned 0 |
| `Maze.TileOf` | index.js:31-40 | `tiles[i]` is "exit" exactly for index 4 and `undefined` exactly outside `0..4`; it is never the player marker |
| `Maze.Draw` | index.js:36-40 | once `exitCreated` holds no draw yields an exit; the flag afterwards holds iff it held before or this cell is an exit; the cell is `undefined` iff the random value was 0 |
| `Maze.Fill` | index.js:34-42 | the random phase yields one row per row of draws, each as long as its row of draws |
| `Maze.FillRow` | index.js:35-41 | a row of the random phase has one tile per draw |
| `Maze.DrawRow` | index.js:35-41 | the inner loop over a row's cells computes exactly `FillRow` and the flag `RowFlag` it leaves |
| `Maze.DrawCells` | index.js:32-42 | the outer loop over rows, starting from `exitCreated = false`, computes exactly `Fill` and the final flag `FillFlag` |
| `Maze.CreateMaze` | index.js:30-53 | `createMaze(w, h)` returns exactly `Generate(w, h, draws)`: a `w` x `h` grid with the player marker at `[0][0]` |
| `Maze.RowFlag` | index.js:36-39 | the value of `exitCreated` after a row: once set, no later draw clears it |
| `Maze.FillFlag` | index.js:32-42 | the value of `exitCreated` after the random phase, starting from `false` at line 32: once set, no later row clears it |
| `Maze.ForceExit` | index.js:44-46 | the grid keeps its shape; when no exit was drawn `[w-1][h-1]` is "exit" (with `h` read off row 0); every other cell is unchanged; when an exit was drawn the grid is unchanged |
| `Maze.PlacePlayer` | index.js:48-50 | the grid keeps its shape; `[0][0]` is "p" and `[1][1]` holds the old `[0][0]`; every other cell is unchanged |
| `Maze.PreSwap` | index.js:44-46 | the grid after the forced-exit pass still has `w` rows of `h` cells |
| `Maze.Generate` | index.js:30-53 | the generated maze has `w` rows of `h` cells |
| `Maze.FillRowCell` | index.js:35-41 | cell `[c]` of a row is drawn from draw `[c]` with the flag the earlier cells of the row left |
| `Maze.FillCell` | index.js:34-42 | row-major order, one draw per cell: cell `[r][c]` is drawn from draw `[r][c]` with the flag every earlier cell left |
| `Maze.RowExitsMatchFlag` | index.js:36-40 | a row adds one exit if it turns `exitCreated` on and none otherwise |
| `Maze.ExitsMatchFlag` | index.js:34-42 | the random phase adds one exit if it turns `exitCreated` on and none otherwise |
| `Maze.RandomPhaseAtMostOneExit` | index.js:36-40 | the random phase places at most one exit, and exactly one iff it ends with `exitCreated` set |
| `Maze.ExitsUpdate` | index.js:45-50 | overwriting one cell changes the exit count by the tile written minus the tile overwritten |
| `Maze.ForcedExactlyOneExit` | index.js:44-46 | before the swap the grid holds exactly one exit; if none was drawn it is at `[w-1][h-1]`, otherwise the grid is the random phase unchanged |
| `Maze.PlacePlayerEffect` | index.js:48-50 | after the swap `[0][0]` is "p", `[1][1]` is the old `[0][0]`, every other cell is unchanged, and the exit count drops by what `[1][1]` held |
| `Maze.ExitLostIff` | index.js:44-50 | the final maze has at most one exit, and none iff the random phase drew the exit at `[1][1]`, or drew none in a 2 x 2 grid |
| `Maze.ExitMovedFromOrigin` | index.js:48-50 | an exit at `[0][0]` before the swap ends at `[1][1]` and the maze keeps exactly one exit |
| `Maze.ExitKeptElsewhere` | index.js:48-50 | an exit anywhere else than `[0][0]` and `[1][1]` stays in place and the maze keeps exactly one exit |
| `Maze.ExitLostExample` | index.js:30-53 | a concrete 2 x 2 draw sequence (three bats, then an exit at `[1][1]`) yields a maze with no exit |
| `Session.Game.constructor` | index.js:63-72 | the module loads with `maze` undefined, both flags false, the player at (0, 0) with 5 lives; a standing player implies an initialized session |
| `Session.Game.Reset` | index.js:55-61 | position (0, 0), life 5, both flags false; the module-level `maze` is unchanged because only the parameter is rebound |
| `Session.Game.Play` | index.js:82-95 | always succeeds; the "been here before" prefix iff the session was initialized; afterwards initialized, not standing, at (0, 0) with 5 lives, `maze` unchanged |
| `Session.Game.StandUp` | index.js:107-124 | not initialized: the "still sleeping" reply of `buildNotInitializedResponse` and no change; otherwise standing, with the "already stand up" prefix iff already standing; nothing else changes; `standUp ==> initialized` is kept |
| `Session.StandUpTwice` | index.js:107-124 | standing up again in an initialized session reports "already stand up" and leaves the state as the first call left it |

## Left out

- Grid sizes below 2 x 2: `createMaze` then throws a TypeError (`w` of 0 or 1) or builds ragged arrays (`h` of 0 or 1). Its only caller asks for 5 x 5, so `CreateMaze` requires `w >= 2` and `h >= 2`.
- Floating-point rounding of `Math.random() * k`: the product is computed exactly on the integer `u`. The value of `RandomScale` stands in for the engine's resolution.
- In-place writes on the JavaScript arrays: the grid is a value, and the post-pass writes are sequence updates. The rows are fresh and never shared, so no aliasing is lost.
- The Alexa SDK glue: `canHandle` routing, response building, `exports.handler` and the Launch, Help, Cancel/Stop, SessionEnded and IntentReflector handlers.
- `ErrorHandler` and its `console.log`: logging and I/O.
- The exact speech strings: replies are modelled by which narration and which prefix they choose.
- Player movement, combat, healing and exit detection: `index.js` has none of them.
