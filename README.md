# reactive-games, modelled in Dafny

reactive-games is a collection of small browser games. Each game is a
pipeline of state reducers that runs once per clock tick. This project
models the shared helpers and the reducers of five games, Snake, Game of
Life, Tic-tac-toe, Asteroids and Dinosaur, and proves what each reducer
promises and what a whole pass of each pipeline preserves.

Layout. `helpers.dfy` and the five game files follow the source files one
to one; `collections.dfy` and `keys.dfy` are shared modules that stand for
JavaScript built-ins and a fold common to two games, with no source file of
their own.

- `helpers.dfy` (`Helpers`): `mod`, `clamp`, `including` and `excluding`.
- `collections.dfy` (`Collections`): `Option`, and the `Filter` that stands
  for `Array.prototype.filter`.
- `keys.dfy` (`Keys`): the set of held keys folded from key events. This is
  the `scan` inside `handleInput` of Asteroids and Dinosaur.
- `snake.dfy`, `gameoflife.dfy`, `tictactoe.dfy`, `asteroids.dfy`,
  `dinosaur.dfy`: one module per game.

Reducers that only compute a new state are functions. Where the source
changes things step by step, the model is a method proved equal to a
specification function:

- `TicTacToe.Win` keeps its counter arrays and nested loops.
- `Asteroids.HitAsteroid` keeps its nested loops. Membership in its
  `Set`s of hit objects becomes per-index flag arrays.
- `Asteroids.HitSelf` and `Asteroids.CrashAsteroid` keep their
  early-return searches.
- `GameOfLife.HandleInput` copies the grid, toggles the clicked cells in
  place and returns the copy.

Each game's `Pass` composes the reducers in the order the game's
`constructGame` pipes them.

Two behaviours of the code worth knowing:

- Every timer gate fires at equality: the reducers return the state
  unchanged only when `last + interval > time`. This holds for Snake's food
  and for Asteroids' bullets and asteroids.
- Asteroids' `constructGame` starts from `DEFAULT_STATE` and ignores its
  `initialState` argument. The model's pass simply takes a state.

## Model

| member | source | states |
|---|---|---|
| Helpers.JsRem | src/helpers/index.tsx:2 | JavaScript's truncating `%`: equals the Euclidean remainder for non-negative `n`, and is that remainder minus `d` (or 0) for negative `n` |
| Helpers.Mod | src/helpers/index.tsx:1-3 | `((n % d) + d) % d` always lands in `[0, d)` and equals the mathematical remainder `n % d` |
| Helpers.ModIdentity | src/helpers/index.tsx:1-3 | a value already in `[0, d)` is left unchanged |
| Helpers.ModPeriodic | src/helpers/index.tsx:1-3 | adding any multiple of `d` does not change the result |
| Helpers.ModIdempotent | src/helpers/index.tsx:1-3 | wrapping twice is the same as wrapping once |
| Helpers.Clamp | src/helpers/index.tsx:5-7 | below `min` gives `min`, inside the range gives `n`, above `max` gives `max` |
| Helpers.ClampInRange | src/helpers/index.tsx:5-7 | with `min <= max` the result lies in `[min, max]` |
| Helpers.ClampMonotone | src/helpers/index.tsx:5-7 | clamping preserves order |
| Helpers.Including | src/helpers/index.tsx:9-13 | the result holds the item and every old element, and nothing else |
| Helpers.Excluding | src/helpers/index.tsx:15-19 | the result lacks the item and holds every other old element, and nothing else |
| Helpers.ExcludingUndoesIncluding | src/helpers/index.tsx:9-19 | deleting a freshly added item gives back the original set |
| Helpers.IncludingUndoesExcluding | src/helpers/index.tsx:9-19 | re-adding a deleted member gives back the original set |
| Collections.Filter | src/components/Asteroids/index.tsx:207-213 | every kept element satisfies the predicate and comes from the input; the result is no longer than the input |
| Collections.FilterMembership | src/components/Asteroids/index.tsx:207-213 | an element is kept exactly when it was in the input and satisfies the predicate |
| Collections.FilterConcat | src/components/Asteroids/index.tsx:207-213 | filtering distributes over concatenation, so order is kept |
| Collections.FilterKeepsAll | src/components/Asteroids/index.tsx:207-213 | filtering by a predicate every element meets changes nothing |
| Collections.FilterDropsAll | src/components/Asteroids/index.tsx:207-213 | filtering by a predicate no element meets leaves nothing |
| Keys.Held | src/components/Asteroids/index.tsx:234-237 | the `scan` accumulator: every held key was pressed by some "keydown" event |
| Keys.HeldIffLastDown | src/components/Asteroids/index.tsx:234-237 | after the `scan` over key events, a key is held exactly when its latest event is a "keydown" |
| Keys.HeldExactly | src/components/Dinosaur/index.tsx:162-165 | the same characterisation, for every key at once |
| Snake.GetSnake | src/components/Snake/index.tsx:48-51 | the body is the last `length` points of the trail (all of it when shorter, none when `length <= 0`) |
| Snake.Intersects | src/components/Snake/index.tsx:53-55 | true exactly when the point is on the path |
| Snake.CountPositive | src/components/Snake/index.tsx:57-59 | a point is counted at least once exactly when it is on the path |
| Snake.CountTwice | src/components/Snake/index.tsx:57-59 | a point is counted more than once exactly when it occurs at two different indices |
| Snake.SomeCountedTwice | src/components/Snake/index.tsx:57-59 | the `some` scan finds a point counted more than once exactly when one exists |
| Snake.SelfIntersects | src/components/Snake/index.tsx:57-59 | true exactly when some point occurs twice in the path |
| Snake.CountedTwiceIsRepeat | src/components/Snake/index.tsx:57-59 | "some point is counted twice" and "two indices hold the same point" are equivalent |
| Snake.Rotate | src/components/Snake/index.tsx:67-74 | only the direction changes; never to the opposite one; a new direction was asked for by a held arrow; the first held arrow that does not point straight back wins, in the order up, down, left, right; a single held arrow turns that way unless it points straight back; no such arrow means no change |
| Snake.Eat | src/components/Snake/index.tsx:76-91 | a live snake whose body covers the food grows by one, speeds up by one and consumes the food at the current time; otherwise nothing changes |
| Snake.Spawn | src/components/Snake/index.tsx:93-108 | food appears only when the snake is alive, there is no food and the timer has run out (equality included); new food is on the board and off the snake |
| Snake.Step | src/components/Snake/index.tsx:110-127 | one step in the direction, the moved coordinate wrapped to the Euclidean remainder of the board size |
| Snake.StepOnBoard | src/components/Snake/index.tsx:110-127 | a step from a board cell stays on the board |
| Snake.Move | src/components/Snake/index.tsx:110-127 | a live snake gains exactly one new head, the old head stepped once; a dead snake does not move |
| Snake.Die | src/components/Snake/index.tsx:129-140 | a live snake dies exactly when its body has a repeated cell |
| Snake.Reset | src/components/Snake/index.tsx:142-147 | space on a dead snake restarts from the default state; nothing else changes the state |
| Snake.Tick | src/components/Snake/index.tsx:149-157 | only the clock changes, by one while alive and not at all when dead |
| Snake.HandleInput | src/components/Snake/index.tsx:158-163 | exactly one key is held: the latest event's key, or "ArrowUp" before any event |
| Snake.LatestArrowSteers | src/components/Snake/index.tsx:67-74 | the latest arrow key turns the snake that way unless it points straight back |
| Snake.DefaultStateValid | src/components/Snake/index.tsx:30-46 | the default state is a valid state |
| Snake.MoveKeepsValid | src/components/Snake/index.tsx:110-127 | moving keeps the trail on the board |
| Snake.Count | src/components/Snake/index.tsx:58 | the length of the `filter` of equal points is at most the path's length; `CountPositive` and `CountTwice` say what it counts |
| Snake.BeforeSpawn | src/components/Snake/index.tsx:169-175 | input, reset, rotate, move, die and eat, in pipeline order, keep a valid state valid |
| Snake.EarlyStagesValid | src/components/Snake/index.tsx:169-175 | each reducer before `spawn` keeps the board non-empty and the trail and food on the board |
| Snake.Pass | src/components/Snake/index.tsx:169-178 | a whole pass keeps the board non-empty and the trail and food on the board |
| Snake.PassNeverReverses | src/components/Snake/index.tsx:169-178 | a pass never turns a live snake straight back |
| Snake.MoveUpWraps | src/components/Snake/index.test.tsx:253-264 | up from the top-left corner of a 10x10 board wraps to the bottom row |
| Snake.DieOnSelfIntersection | src/components/Snake/index.test.tsx:295-306 | the test's self-crossing trail kills the snake |
| GameOfLife.GetNeighbors | src/components/GameOfLife/index.tsx:19-31 | the eight neighbours NW, N, NE, W, E, SW, S, SE, each index wrapped around the torus |
| GameOfLife.CountLive | src/components/GameOfLife/index.tsx:33-41 | the length of the `filter` of live cells, at most the number of cells |
| GameOfLife.IsAlive | src/components/GameOfLife/index.tsx:33-41 | the B3/S23 rule: a live cell survives with 2 or 3 live neighbours, a dead one is born with exactly 3 |
| GameOfLife.Evolve | src/components/GameOfLife/index.tsx:43-48 | the next generation is square and the same size, and every cell is the rule applied to the old grid |
| GameOfLife.EvolveEmpty | src/components/GameOfLife/index.tsx:43-48 | an empty grid stays empty |
| GameOfLife.NoneLive | src/components/GameOfLife/index.tsx:33-41 | a neighbourhood with no live cell counts zero |
| GameOfLife.Toggle | src/components/GameOfLife/index.tsx:55-62 | exactly the clicked cell is negated; the shape is kept |
| GameOfLife.Edited | src/components/GameOfLife/index.tsx:55-62 | the batch of toggles keeps the grid's shape |
| GameOfLife.EditedParity | src/components/GameOfLife/index.tsx:55-62 | after the batch a cell is negated exactly when it was clicked an odd number of times |
| GameOfLife.HandleInput | src/components/GameOfLife/index.tsx:55-62 | the in-place toggling of a copy returns exactly the folded edit, whose parity property is proved above |
| GameOfLife.Pass | src/components/GameOfLife/index.tsx:71-75 | after a pass every cell is the rule's value, negated when clicked an odd number of times, and the grid stays square |
| GameOfLife.NeighboursExample | src/components/GameOfLife/index.test.tsx:24-34 | the test's neighbour list |
| GameOfLife.UnderpopulationExample | src/components/GameOfLife/index.test.tsx:37-45 | a live cell with one live neighbour dies, as the test expects |
| GameOfLife.OverpopulationExample | src/components/GameOfLife/index.test.tsx:47-55 | a live cell with four live neighbours dies, as the test expects |
| GameOfLife.BirthExample | src/components/GameOfLife/index.test.tsx:57-65 | a dead cell with three live neighbours comes alive, as the test expects |
| TicTacToe.IsPlayer | src/components/TicTacToe/index.tsx:35-37 | 'x' and 'o' are players and the blank cell is not |
| TicTacToe.LineSum | src/components/TicTacToe/index.tsx:39-61 | a line's counter stays in `[-3, 3]` |
| TicTacToe.SumDecidesLine | src/components/TicTacToe/index.tsx:39-61 | a counter is 3 exactly when the line is all 'x', and -3 exactly when it is all 'o' |
| TicTacToe.FullSum | src/components/TicTacToe/index.tsx:41-55 | folding the board row by row gives each line's sum |
| TicTacToe.CountersDecide | src/components/TicTacToe/index.tsx:57-60 | 3 is among the counters exactly when 'x' holds a line, -3 exactly when 'o' does |
| TicTacToe.AddCell | src/components/TicTacToe/index.tsx:44-54 | visiting one cell adds its weight to exactly the counters of the lines through it |
| TicTacToe.FoldRow | src/components/TicTacToe/index.tsx:43-55 | after a row every counter holds the fold of the rows so far |
| TicTacToe.Win | src/components/TicTacToe/index.tsx:39-61 | the loop's result is the judged state: a winner exists exactly when some player holds a line, with 'x' checked first |
| TicTacToe.Draw | src/components/TicTacToe/index.tsx:63-67 | the game ends once `time >= 8`; otherwise nothing changes |
| TicTacToe.Tick | src/components/TicTacToe/index.tsx:69-72 | only the clock advances, by one |
| TicTacToe.HandleInput | src/components/TicTacToe/index.tsx:76-97 | no click restarts a finished game and otherwise does nothing; a taken cell is ignored; an empty cell gets the current player's mark, every other cell is kept, and the turn passes |
| TicTacToe.MarkOne | src/components/TicTacToe/index.tsx:86-96 | claiming one empty cell adds one mark for the player and none for the other |
| TicTacToe.HandleInputAlternates | src/components/TicTacToe/index.tsx:76-97 | a click keeps the marks alternating: the player to move has no more marks than the other, and at most one fewer |
| TicTacToe.Judged | src/components/TicTacToe/index.tsx:57-60 | the outcome `win` decides: 'x' wins and the game ends when 'x' holds a line; otherwise 'o' does when 'o' holds one; otherwise nothing changes |
| TicTacToe.Pass | src/components/TicTacToe/index.tsx:104-109 | input, win, draw and tick keep the board 3x3, advance the clock by one after the input, and keep the marks alternating |
| TicTacToe.XCheckedFirst | src/components/TicTacToe/index.tsx:57-58 | when both players hold a line, 'x' is named the winner |
| TicTacToe.TopRowWins | src/components/TicTacToe/index.test.tsx:8-21 | the test's board with 'x' across the top row is won by 'x' and finished |
| Asteroids.Shattered | src/components/Asteroids/index.tsx:70-92 | what `hitAsteroid` computes: only the lists change, every surviving bullet comes from the old list and is inside no asteroid, every surviving asteroid comes from the old list and holds no bullet |
| Asteroids.ShatteredKeepsExactly | src/components/Asteroids/index.tsx:70-92 | a bullet survives exactly when it is inside no asteroid, and an asteroid exactly when no bullet is inside it; nothing else changes |
| Asteroids.ShatteredNoOverlap | src/components/Asteroids/index.tsx:70-92 | with no bullet inside any asteroid the state is unchanged |
| Asteroids.Survivors | src/components/Asteroids/index.tsx:87-91 | reading back the unflagged items gives the filter by the keep predicate |
| Asteroids.MarkHits | src/components/Asteroids/index.tsx:76-84 | one bullet's inner loop flags it exactly when it hits some asteroid, and adds exactly the asteroids it hits |
| Asteroids.MarkAll | src/components/Asteroids/index.tsx:75-85 | after the nested loops a bullet is flagged exactly when it hits some asteroid, and an asteroid exactly when some bullet hits it |
| Asteroids.HitAsteroid | src/components/Asteroids/index.tsx:70-92 | the method's result is the shattered state characterised above |
| Asteroids.SelfHit | src/components/Asteroids/index.tsx:94-102 | what `hitSelf` computes: only `alive` changes, and the ship stays alive exactly when it was alive and no bullet is within distance .5 |
| Asteroids.Crashed | src/components/Asteroids/index.tsx:104-115 | what `crashAsteroid` computes: only `alive` changes, and the ship stays alive exactly when it was alive and lies inside no asteroid's box |
| Asteroids.HitSelf | src/components/Asteroids/index.tsx:94-102 | the search kills the ship exactly when some bullet is within distance .5 of it |
| Asteroids.CrashAsteroid | src/components/Asteroids/index.tsx:104-115 | the search kills the ship exactly when it lies strictly inside some asteroid's box, less than half the size away from its centre on both axes |
| Asteroids.Throttle | src/components/Asteroids/index.tsx:117-135 | without the up arrow nothing changes; with it, thrust of .01 along the heading is added and a speed above 1 is normalised |
| Asteroids.ThrottleCapsSpeed | src/components/Asteroids/index.tsx:117-135 | after throttling the speed is at most 1 |
| Asteroids.RotateLeft | src/components/Asteroids/index.tsx:137-141 | the left arrow turns the heading by -0.1, wrapped mod 2π; otherwise nothing changes |
| Asteroids.RotateRight | src/components/Asteroids/index.tsx:143-147 | the right arrow turns the heading by +0.1, wrapped mod 2π; otherwise nothing changes |
| Asteroids.RotateKeepsAngle | src/components/Asteroids/index.tsx:137-147 | the heading stays in `[0, 2π)` |
| Asteroids.Shoot | src/components/Asteroids/index.tsx:149-164 | when the bullet timer has run out (equality included) and space is held, one bullet is appended at the current time and the timer restarts; otherwise nothing changes |
| Asteroids.ShootOncePerTick | src/components/Asteroids/index.tsx:149-164 | shooting twice at one time adds at most one bullet |
| Asteroids.Move | src/components/Asteroids/index.tsx:166-169 | only the ship's position changes: position plus velocity, wrapped onto the board |
| Asteroids.MoveBullets | src/components/Asteroids/index.tsx:171-180 | every bullet moves by its velocity, wrapped; the count and everything else are kept |
| Asteroids.MoveAsteroids | src/components/Asteroids/index.tsx:182-191 | every asteroid moves by its velocity, wrapped; the count and everything else are kept |
| Asteroids.MoveAtRest | src/components/Asteroids/index.tsx:166-169 | a ship at rest on the board stays put |
| Asteroids.SpawnAsteroid | src/components/Asteroids/index.tsx:193-205 | when the timer has run out and there is room, one asteroid, `NewAsteroid` of the draws, is appended after the old ones and the timer restarts; otherwise nothing changes |
| Asteroids.SpawnRespectsMax | src/components/Asteroids/index.tsx:193-205 | the number of asteroids never exceeds the maximum |
| Asteroids.NewAsteroidOnBoard | src/components/Asteroids/index.tsx:197-203 | a new asteroid starts on the board |
| Asteroids.DespawnBullets | src/components/Asteroids/index.tsx:207-213 | only the bullets change, and every remaining bullet is younger than its time to live |
| Asteroids.DespawnKeepsExactly | src/components/Asteroids/index.tsx:207-213 | a bullet survives exactly when it was present and is still within its time to live |
| Asteroids.Reset | src/components/Asteroids/index.tsx:215-220 | space on a dead ship restarts from the default state; otherwise nothing changes |
| Asteroids.Tick | src/components/Asteroids/index.tsx:222-231 | the clock advances by one while alive and stops when dead |
| Asteroids.HandleInput | src/components/Asteroids/index.tsx:233-243 | only the keys change, and the held keys are exactly those whose latest event is a "keydown" |
| Asteroids.DefaultStateValid | src/components/Asteroids/index.tsx:51-68 | the default state is valid |
| Asteroids.SteerSound | src/components/Asteroids/index.tsx:248-253 | input, reset, steering and shooting keep the board, the asteroid bound and the bullet times sound |
| Asteroids.CollideSound | src/components/Asteroids/index.tsx:254-258 | collisions, expiry and spawning keep the state sound |
| Asteroids.Prepare | src/components/Asteroids/index.tsx:248-259 | input through spawning, in pipeline order, keeps the state sound |
| Asteroids.Advance | src/components/Asteroids/index.tsx:260-263 | moving everything and ticking puts every object back on the board, given a `mod` that lands on it |
| Asteroids.Pass | src/components/Asteroids/index.tsx:248-263 | a whole pass keeps the state valid: a positive board, at most the maximum of asteroids, no bullet from the future, everything on the board |
| Asteroids.CollisionExample | src/components/Asteroids/index.test.tsx:28-37 | the test's bullet inside an asteroid removes both |
| Dinosaur.Jump | src/components/Dinosaur/index.tsx:71-77 | space or up starts a jump (vertical speed 1) only below the maximum height and when not falling; otherwise nothing changes |
| Dinosaur.Duck | src/components/Dinosaur/index.tsx:79-83 | the height is 2 exactly when down is held, and 4 exactly when it is not |
| Dinosaur.Gravity | src/components/Dinosaur/index.tsx:85-89 | on the ground the vertical speed is 0; in the air it drops by .15 |
| Dinosaur.Accelerate | src/components/Dinosaur/index.tsx:91-94 | the speed grows with the distance covered and stays between the minimum and the maximum |
| Dinosaur.SpeedMonotone | src/components/Dinosaur/index.tsx:91-94 | further along, the speed is never lower |
| Dinosaur.Move | src/components/Dinosaur/index.tsx:96-100 | a dead dinosaur stays put; a live one moves by its speed and stays between the ground and the top of the game |
| Dinosaur.SpawnObstacle | src/components/Dinosaur/index.tsx:102-119 | an obstacle is appended only when the last one is far enough behind the spawn point and the draw is within the probability; the appended obstacle sits at `x + gameWidth` with the shape of row `kind`, after the old ones; otherwise nothing changes |
| Dinosaur.UnlockedByDistance | src/components/Dinosaur/index.tsx:109-116 | kind `k` of the six can be drawn exactly when `k <= x / newObstacleTypeDistance` |
| Dinosaur.SpawnKeepsSpaced | src/components/Dinosaur/index.tsx:102-119 | spawning keeps obstacles at least the minimum distance apart |
| Dinosaur.DespawnObstacle | src/components/Dinosaur/index.tsx:121-124 | only the obstacles change, and every remaining one is less than a game width behind |
| Dinosaur.DespawnKeepsExactly | src/components/Dinosaur/index.tsx:121-124 | an obstacle survives exactly when it was present and is less than a game width behind |
| Dinosaur.FilterKeepsSpaced | src/components/Dinosaur/index.tsx:121-124 | dropping obstacles keeps the others spaced |
| Dinosaur.Die | src/components/Dinosaur/index.tsx:126-146 | the dinosaur dies when its box touches some obstacle, and nothing changes when it touches none |
| Dinosaur.Reset | src/components/Dinosaur/index.tsx:148-152 | space on a dead dinosaur restarts from the default state; otherwise nothing changes |
| Dinosaur.Tick | src/components/Dinosaur/index.tsx:154-159 | the clock advances by one while alive and stops when dead |
| Dinosaur.HandleInput | src/components/Dinosaur/index.tsx:161-171 | only the keys change, and the held keys are exactly those whose latest event is a "keydown" |
| Dinosaur.DefaultStateValid | src/components/Dinosaur/index.tsx:45-65 | the default state is valid |
| Dinosaur.RunValid | src/components/Dinosaur/index.tsx:175-181 | input, gravity, acceleration, jumping, ducking and moving keep the state valid |
| Dinosaur.SpawnKeepsValid | src/components/Dinosaur/index.tsx:102-119 | spawning keeps the state valid |
| Dinosaur.DespawnKeepsValid | src/components/Dinosaur/index.tsx:121-124 | despawning keeps the state valid |
| Dinosaur.BeforeSpawn | src/components/Dinosaur/index.tsx:175-182 | input, gravity, acceleration, jump, duck, move and die keep a valid state valid |
| Dinosaur.Pass | src/components/Dinosaur/index.tsx:175-187 | a whole pass keeps the height within the game, the speed within its bounds and the obstacles spaced |
| Dinosaur.DieExamples | src/components/Dinosaur/index.test.tsx:323-351 | the tests' obstacle beside the dinosaur spares it, and the overlapping one kills it |

## Left out

- Streams and timing: the rxjs subjects, `withLatestFrom`, `startWith`, the
  `delay`/`flatMap` pacing between passes (including Snake's
  speed-dependent delay), and the React components that draw the state.
  Each `Pass` takes the inputs of one pass as parameters.
- Randomness becomes parameters:
  - Snake's food point is `pick`. The `do … while` retry loop is not
    modelled; `PickAllowed` states the exit condition it guarantees, a
    board cell off the snake.
  - Asteroids' spawn side, position and velocity are the `SpawnDraws`.
  - Dinosaur's probability draw is `draw`. The table row picked by
    `pickRandom` is `kind`, one of the rows unlocked at the current
    distance (`Dinosaur.Unlocked`).
  - Game of Life's `createRandomGrid` is not part of this model.
- Floating point: positions, speeds and angles are exact reals.
- Asteroids.RotateLeft: the real-valued `mod` for the heading (and the
  board wrap in `Move`, `MoveBullets` and `MoveAsteroids`) is the parameter
  `wrap`, which the invariants assume maps into `[0, d)` (`WrapsOnto`).
  Real division and flooring made these proofs too costly.
- Asteroids.Throttle: `Math.cos`, `Math.sin` and the normalisation by
  `Math.sqrt` are the parameters `aim` and `normalise`. Capping the speed
  assumes `normalise` yields unit length.
- Asteroids.HitSelf: "distance below .5" is stated as squared distance
  below .25, which is the same condition without `Math.sqrt`.
- Asteroids.HitAsteroid: the `Set`s of hit objects are identified by index.
  The source compares object references. The two differ only when one
  object occurs twice in a list, which the game never produces.
- Dinosaur.SpawnObstacle: the kind drawn must be among the first
  `1 + floor(x / newObstacleTypeDistance)` rows of the table. When that
  slice is empty (a negative `x`), the source builds an obstacle whose
  shape is `undefined`; the model admits no kind there. When
  `newObstacleTypeDistance` is not positive, the model admits all six
  kinds. The default state starts at `x = 0` with a distance of 300, where
  only the first kind is unlocked.
- Snake.Spawn: when the snake covers every board cell, no `pick` meets the
  precondition. On that input the source's `do … while` never exits, so
  the game hangs; the model does not represent the hang.
- Snake.Move: a live snake must have a non-empty trail and a non-empty
  board. On an empty trail the source throws when it reads the last trail
  point. `Valid` rules both out, and every pass keeps `Valid`.
- Snake.GetSnake: `clamp(trail.length - length, 0, Infinity)` is written
  with integer bounds.
- App and the `createRandomGrid` and `randomPoint` generators are not part
  of this model.
