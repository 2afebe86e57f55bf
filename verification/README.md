# Frogger engine, modelled and verified in Dafny

The repository is a bare-metal Frogger game for the VGA text screen (80 by 25
cells). A frog starts at the bottom of the screen. It crosses five lanes of
cars, two cars per lane, to reach one of five lily pads on row 3. A timer
interrupt calls `Frogger::tick` and the keyboard interrupt calls
`Frogger::key`. Everything the engine does between screen writes is integer
bookkeeping:

- wrap-around steps (`safe_add`, `add2`, `sub2`)
- the car sweep and collision search
- pad occupancy and the `openl` count of free pads
- lives (`frogs`), score, high score and progress row (`currenty`)
- the death animation (`ddelay`) and the game-over/restart cycle

This project models that engine with every screen write removed.

Layout, leaf first:

- `bounds.dfy`, module `Bounds`:
  - the screen size
  - `safe_add`/`add2`/`sub2` and their inverse laws
- `entities.dfy`, module `Entities`:
  - the player, obstacle and lily-pad records
  - `checkcollide`, written as the source's nested loop and proved equal to a closed-form test
  - the one-tick move of a car on its 77-cell ring
- `frogger_spec.dfy`, module `FroggerSpec`:
  - the engine state as a value `Game`, with one transition function per engine method
  - the engine invariant `Inv`
  - the lemmas the transitions rest on
- `engine.dfy`, module `Engine`:
  - the `Frogger` struct as a class, with the two fixed arrays and the counters as fields
  - each method updates them in place
  - each method is proved to make exactly the transition of its `FroggerSpec` function
  - `Tick` and `Key` also keep `Valid()`, the invariant over the fields
- `frogger_props.dfy`, module `FroggerProps`: the invariant holds at `Frogger::default()` and is kept by `tick` and `key`.
- `frogger_effects.dfy`, module `FroggerEffects`: what each transition does, stated by its effect.
- `frogger_runs.dfy`, module `FroggerRuns`: runs of several ticks and keys:
  - the four-tick death animation
  - a collision with the last life
  - game over and restart
  - the 1060-point scoring run
  - how lives are spent

Where the source subtracts from a `usize`, the model subtracts into a `nat`. That
turns each possible underflow into a precondition:

- `px - 2` and `oy - 1` in `checkcollide`
- `LIMIT - 2` in `sub2`
- `bw - speed` and `frogs - 1` in `move_obstacles`
- `openl - 1` and `frogs - 1` in `check_lilypads`

The invariant discharges all of them in every reachable state:

- The frog stays on a grid: column 2 modulo 5, odd row from 5 to 23.
- Once the lanes are laid out, the two cars of a lane share a row and a speed.
- They stay at least 9 columns apart round the ring, so a sweep hits the frog at most once.
- `openl` counts the free pads and is at least 1.

Some source methods are split into helpers that follow the source's own blocks:

- `initialize` is split into `LayOutPads` and `LayOutLanes`.
- The loop of `move_obstacles` becomes `Sweep`, with one pass `MoveObstacle`.
- The body of `check_lilypads` becomes `TakePad` and `Land`.
- The `ArrowUp` arm of `handle_raw` becomes `Climb`, `Progress` and `MoveUp`.
- Everything after the first statement of `tick` becomes `TickStep`.

Three facts about `src/lib.rs` that the model keeps as written:

- The side arrows move the frog 5 columns (src/lib.rs:438, 443).
- The death animation lasts four ticks: `ddelay` goes 0, 1, 2, 3, then the new frog starts (src/lib.rs:240-258).
- The sweep takes one life for every car that collides (src/lib.rs:339-341). In a laid-out game at most one car can collide (`AtMostOneHit`).

## Model

| member | source | states |
|---|---|---|
| Bounds.SafeAdd | src/lib.rs:18-20 | the sum wraps into `[0, limit)`; it is `a + b` when that fits and `a + b - limit` when it overflows by less than one period |
| Bounds.Add2 | src/lib.rs:22-24 | a step of two forward stays in range and is `v + 2` when that fits |
| Bounds.Sub2 | src/lib.rs:26-28 | a step of two back stays in range and is `v - 2` from `v >= 2` |
| Bounds.Sub2OfAdd2 | src/lib.rs:22-28 | for every `v < limit`, a step back undoes a step forward |
| Bounds.Add2OfSub2 | src/lib.rs:22-28 | for every `v < limit`, a step forward undoes a step back |
| Entities.CheckCollide | src/lib.rs:174-183 | the nested search returns true exactly when the frog's row is the car's upper row and `[ox, ox+6)` meets `[px-2, px+2)`; it runs only where `px - 2` and the reached `oy - 1` do not underflow |
| Entities.Advance | src/lib.rs:337 | the moved car is on the ring, keeps its row, speed and colour, and moving it back by its speed gives its old column |
| FroggerSpec.FirstLanding | src/lib.rs:399-400 | the index found is a free pad under the frog with none before it; no index means no such pad |
| FroggerSpec.CheckLilyPads | src/lib.rs:397-424 | the pad check either changes nothing or leaves the frog at the start with `openl` changed |
| FroggerSpec.CountOpenTake | src/lib.rs:403-404 | taking a free pad closes exactly one open pad |
| FroggerSpec.CountOpenAllFree | src/lib.rs:320-324 | with every pad free, all pads are open |
| FroggerSpec.AtMostOneHit | src/lib.rs:335-345 | with the lanes laid out, a sweep over them counts at most one collision |
| FroggerSpec.AdvanceKeepsApart | src/lib.rs:337 | two cars of equal speed keep their distance round the ring |
| FroggerSpec.AdvancedKeepsLanes | src/lib.rs:335-338 | moving every car keeps the lane shape: rows, speeds, columns on the ring and the gap in each lane |
| FroggerSpec.LayOutDefaultLanes | src/lib.rs:279-307 | the lane assignments over default cars give the lane shape |
| FroggerSpec.InitializeKeepsInv | src/lib.rs:273-318 | `initialize` on a started game not yet laid out establishes the engine invariant |
| FroggerSpec.LanesSweepSafe | src/lib.rs:333-346 | in a laid-out game, a living frog on the grid can be swept without any underflow |
| FroggerSpec.PrepareKeepsInv | src/lib.rs:223-226 | after the first statement of `tick` the invariant holds; if the frog is alive, the game is laid out and safe to sweep |
| FroggerSpec.ClimbLeavesGoalRow | src/lib.rs:446-459 | after the climb the frog is never on the goal row |
| FroggerProps.DefaultGameInv | src/lib.rs:84-102 | `Frogger::default()` satisfies the engine invariant |
| FroggerProps.OpenPadsCounted | src/lib.rs:274-277 | between calls, `openl` is the number of free pads and lies between 1 and 5 |
| FroggerProps.GridFacts | src/lib.rs:64-71 | the start cell is on the grid; pad columns `7 + 15*i` are grid columns; a step up from row 5 reaches the goal row |
| FroggerProps.LandingKeepsInv | src/lib.rs:397-424 | a landing of a living frog from row 5 keeps the invariant |
| FroggerProps.ClimbKeepsInv | src/lib.rs:446-459 | the climb keeps the invariant |
| FroggerProps.MoveUpKeepsInv | src/lib.rs:446-471 | the `ArrowUp` arm keeps the invariant |
| FroggerProps.TickKeepsInv | src/lib.rs:222-260 | `tick` keeps the invariant |
| FroggerProps.StepLeftOnGrid | src/lib.rs:436-440 | a step left keeps the frog on the grid |
| FroggerProps.StepRightOnGrid | src/lib.rs:441-445 | a step right keeps the frog on the grid |
| FroggerProps.KeyKeepsInv | src/lib.rs:426-431 | `key` keeps the invariant |
| FroggerEffects.CountHitsPositive | src/lib.rs:339-341 | a sweep loses a life exactly when some moved car collides |
| FroggerEffects.SweepEffects | src/lib.rs:333-346 | every car moves `speed` left on the ring and nothing else about it changes; `frogs` falls by the number of colliding cars; the frog dies exactly when one collides; player, pads and counters are untouched |
| FroggerEffects.LaidOutSweepCostsAtMostOne | src/lib.rs:341 | in a laid-out game a sweep costs at most one life |
| FroggerEffects.StartRowIsSafe | src/lib.rs:339 | no laid-out lane reaches the start row, so the sweep leaves a frog there alive with its lives |
| FroggerEffects.CheckLilyPadsChanges | src/lib.rs:398-400 | the pad check changes the game exactly when the frog is on row 3 over a free pad |
| FroggerEffects.UntakenOfTaken | src/lib.rs:321-324 | freeing all pads does not depend on which were taken |
| FroggerEffects.LandingEffects | src/lib.rs:401-419 | landing on the first free pad: +50 and the pad taken, `openl` down by one; for the last free pad, +1000 more, all pads freed, `openl` 5, lives 7; then one life spent; frog back at the start, alive exactly while lives remain; with no life left, game over with `hiscore` the maximum |
| FroggerEffects.SideStepsCancel | src/lib.rs:438-443 | on every column, the left and right steps undo each other |
| FroggerEffects.SideStepEffects | src/lib.rs:436-445 | left and right move a living frog 5 columns with wrap-around and change nothing else; each undoes the other |
| FroggerEffects.StepDownEffects | src/lib.rs:472-478 | down moves a living frog two rows unless it is on the start row, changes nothing else, and never goes below row 23 |
| FroggerEffects.IgnoredKeys | src/lib.rs:433-483 | other key codes, and every key while the frog is dead, change nothing |
| FroggerEffects.StepUpEffects | src/lib.rs:446-471 | up from row 7 or lower moves two rows; it scores 10 and moves `currenty` exactly when the new row is above `currenty`; the result is the old game with only those fields replaced |
| FroggerEffects.BlockedStepUp | src/lib.rs:449-458 | up from row 5 with no free pad above leaves the frog on row 5; only the progress bonus can apply |
| FroggerEffects.LandingStepUp | src/lib.rs:449-471 | up from row 5 over a free pad is exactly a landing from row 3 |
| FroggerEffects.SecondCheckIsNoOp | src/lib.rs:469 | the second pad check of the `ArrowUp` arm never changes the game |
| FroggerEffects.RestartEffects | src/lib.rs:485-508 | `s` while no game runs starts one with score 0 and default cars and nothing else changed; any other character, or `s` during a game, changes nothing |
| FroggerEffects.TickInitializes | src/lib.rs:222-230 | the first tick of a started game lays it out: pads at `7 + 15*i`, all free, `openl` 5, a living frog at the start with 7 lives and `ddelay` 0; it also sweeps the laid-out cars |
| FroggerEffects.TickGameOver | src/lib.rs:231-238 | a dead frog with no lives ends the game: `started`, `init` and `living` become false, `ddelay` 0, `hiscore` the maximum of itself and the score |
| FroggerEffects.TickDeathAnimation | src/lib.rs:239-259 | a dead frog with lives left counts `ddelay` up to 3; the next tick puts a living frog at the start with `ddelay` 0 |
| FroggerEffects.CheckLilyPadsKeepsHiscore | src/lib.rs:414-417 | a landing never lowers `hiscore` |
| FroggerEffects.TickKeepsHiscore | src/lib.rs:222-260 | `tick` never lowers `hiscore` |
| FroggerEffects.KeyKeepsHiscore | src/lib.rs:426-483 | `key` never lowers `hiscore` |
| FroggerEffects.TickKeepsScore | src/lib.rs:222-260 | `tick` never changes the score |
| FroggerEffects.KeyScore | src/lib.rs:426-508 | `key` never lowers the score, except that `s` while no game runs resets it to 0 |
| FroggerRuns.DeathAnimation | src/lib.rs:239-259 | for three ticks only `ddelay` changes (1, 2, 3), so the dead frog stays in place and the cars stand still; the fourth tick starts a new frog with the same lives and score |
| FroggerRuns.CollisionRun | src/lib.rs:339-341 | in a laid-out game a collision costs exactly one life; with the last life, the next tick ends the game with `hiscore` the maximum |
| FroggerRuns.GameOverIsFinal | src/lib.rs:231-238 | once the game is over, one tick records `hiscore`; later ticks, every arrow key and every character but `s` change nothing |
| FroggerRuns.RestartRun | src/lib.rs:498-504 | after a game over, `s` and one tick give a laid-out game: living frog at the start, 7 lives, all pads free, score 0, `hiscore` kept |
| FroggerRuns.ScoringRun | src/lib.rs:446-471 | from row 7 with `currenty` 7 and one free pad, two ups score 10 + 50 + 1000; all pads freed, lives restocked and one spent, frog back at the start |
| FroggerRuns.LastLifeLanding | src/lib.rs:411-417 | a landing with the last life ends the game even with pads left, and its 50 points count towards `hiscore` |
| FroggerRuns.TickLives | src/lib.rs:333-346 | during a laid-out game a tick costs at most one life and never adds one |
| FroggerRuns.KeyLives | src/lib.rs:397-424 | a key leaves the lives alone, spends one on a landing, or restocks to 7 and spends one |
| Engine.Frogger.constructor | src/lib.rs:84-102 | builds `Frogger::default()` and the invariant holds |
| Engine.Frogger.Reset | src/lib.rs:262-271 | the frog goes back to the start, alive, with `currenty` reset |
| Engine.Frogger.MakeLilyPads | src/lib.rs:320-327 | in place: every pad freed, lives 7, `openl` the number of pads |
| Engine.Frogger.LayOutPads | src/lib.rs:274-276 | in place: pad `i` goes to column `7 + 15*i` |
| Engine.Frogger.LayOutLanes | src/lib.rs:279-307 | in place: the nine lane assignments |
| Engine.Frogger.Initialize | src/lib.rs:273-318 | the fields become `FroggerSpec.Initialize` of the old state |
| Engine.Frogger.GameOver | src/lib.rs:377-395 | `started`, `init`, `living` false; `hiscore` raised to the score if lower |
| Engine.Frogger.MoveObstacle | src/lib.rs:337-339 | car `i` moves and only it; the result is its collision test at the frog's cell |
| Engine.Frogger.Sweep | src/lib.rs:335-345 | the array becomes every car moved; lives fall by the collision count; alive exactly when nothing collided |
| Engine.Frogger.MoveObstacles | src/lib.rs:333-346 | the fields become `FroggerSpec.MoveObstacles` of the old state |
| Engine.Frogger.TakePad | src/lib.rs:401-410 | the fields become `FroggerSpec.TakePad` of the old state |
| Engine.Frogger.Land | src/lib.rs:401-419 | the fields become `FroggerSpec.Land` of the old state |
| Engine.Frogger.CheckLilyPads | src/lib.rs:397-424 | the scan with its early break gives `FroggerSpec.CheckLilyPads` of the old state |
| Engine.Frogger.TickStep | src/lib.rs:227-259 | the fields become `FroggerSpec.TickStep` of the old state |
| Engine.Frogger.Tick | src/lib.rs:222-260 | the fields become `FroggerSpec.Tick` of the old state, and the invariant is kept |
| Engine.Frogger.Climb | src/lib.rs:447-459 | the fields become `FroggerSpec.Climb` of the old state |
| Engine.Frogger.MoveUp | src/lib.rs:446-471 | the fields become `FroggerSpec.MoveUp` of the old state |
| Engine.Frogger.HandleRaw | src/lib.rs:433-483 | the fields become `FroggerSpec.HandleRaw` of the old state |
| Engine.Frogger.HandleUnicode | src/lib.rs:485-508 | the fields become `FroggerSpec.HandleUnicode` of the old state |
| Engine.Frogger.Key | src/lib.rs:426-431 | the fields become `FroggerSpec.Key` of the old state, and the invariant is kept |

## Left out

- Rendering is not modelled: every `plot`, `plot_num`, `plot_str` and `clear_screen` call, and every `draw`, `clear`, `drawreg`, `draw_ground` and `draw_ui` routine. These calls write to the screen and change no engine state.
- Underflows that could happen only inside the drawing code are therefore outside the model, e.g. `px - 1` in the death animation's plot.
- Colours are not modelled, except the car colours. Those are an enumeration carried so that "the colour is unchanged" can be stated; they never affect the logic.
- `pc_keyboard` decoding is not modelled. `DecodedKey` and `KeyCode` are plain datatypes. Every key code other than the four arrows is one value, `OtherKey`.
- The timer and keyboard interrupt handlers that call `tick` and `key` live outside the engine. The calls are never reentrant, so they are modelled as plain method calls.
- `score` and `hiscore` are unbounded naturals, so `usize` overflow of the score is not modelled.
- `num::Integer::mod_floor` is modelled as `%` on naturals, where it agrees with floor modulo.
- `BUFFER_WIDTH` and `BUFFER_HEIGHT` come from a crate that is not part of this model. They are fixed at the VGA text-mode size, 80 by 25.
- Engine.Frogger.Tick: requires the engine invariant. `Frogger::default()` establishes it and `tick` and `key` keep it, so states outside it are not modelled.
- Engine.Frogger.Key: requires the engine invariant. The function `FroggerSpec.Key` needs only `KeySafe`: a living frog has a free pad and a life left.
- Engine.Frogger.MoveObstacles: requires `SweepSafe`. It says no subtraction of the sweep underflows.
- Engine.Frogger.CheckLilyPads: requires `LandingSafe`. It says a landing does not underflow `openl` or `frogs`.
- Engine.Frogger.Sweep: keeps the lives and the living flag in locals and writes them back after the loop. The source writes `self.frogs` and `self.living` in each pass. Apart from the decrement, which the local mirrors, and the drawing calls, nothing in the loop reads them.
- Engine.Frogger.HandleUnicode: requires ten cars, matching the source's fixed array type `[Obstacle; 10]`.
