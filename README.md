# Street Cash engine in Dafny

Street Cash is a maze-chase game. A player car drives through a tile maze
collecting Cash tiles (10 points each) and Turbo tiles. Three police cars
chase the player. While a Turbo runs the police are scared: they flee and
drive slower, and touching one arrests it for 200 points. Touching a car
without the Turbo costs a life and sends everyone back to the start; the
game ends when the last life is lost. The canvas component holds the
simulation: a wall lookup that rounds to tiles and treats everything off
the grid as open (the tunnels), movement with a turn rule at tile centres
and a horizontal wrap, the police decision rule, the pickup and collision
resolver, a per-frame turbo countdown, the keyboard handler and the
start/reset buttons. The app component holds the game state record, its
single-field updaters and a radio log of the three newest messages.

The model has nine modules:

- `Types` holds the value types: directions, tiles, positions, entity values, the state record and the engine constants (`Config`).
- `Grid` holds the wall lookup (`Math.round` is `Floor(x + 0.5)`) and the cash count.
- `Movement` holds one entity's movement and the intersection rule.
- `PoliceAI` holds the police decision rule. Squared distances stand in for `Math.sqrt`.
- `Lifecycle` holds every update of the state record. It also holds the stale-copy defect described under Findings.
- `Radio` holds the message log.
- `Collisions` holds the pickup and the tests of each car.
- `Simulation` holds one frame and the events as pure functions over a `World`, plus the invariant they keep.
- `Engine` is the imperative engine. Entities are objects of class `Entity` whose fields are updated in place. The canvas is class `Game`, whose methods mutate the entities, reassign the maze tile by tile and update the state. Each method is proved to do exactly what its pure counterpart says, for example `ensures View() == Step(cfg, old(View()), dt, now)`. The properties are proved about those pure functions.

The collision resolver reads lives and the turbo flag from the state as it
was at the start of the frame. That is the intended behaviour, not the
behaviour as written; see Findings.

## Model

| member | source | states |
|---|---|---|
| Types.Opposite | components/GameCanvas.tsx:146 | The way back from a heading is a different heading, and only `None` has none. The full pairing is in `Grid.OppositeUndoes`. |
| Grid.OppositeUndoes | components/GameCanvas.tsx:146 | The way back pairs Up with Down and Left with Right: its step is the step undone, and taking it twice gives the heading back. |
| Grid.Round | components/GameCanvas.tsx:58-59 | `Math.round`: the result is the integer within half a tile below, or strictly less than half above. |
| Grid.IsWall | components/GameCanvas.tsx:57-63 | A wall exactly when the rounded coordinates are on the grid and that tile is a Wall. Off the grid is always open. |
| Grid.IsWallByTile | components/GameCanvas.tsx:57-63 | Every point of a tile's square gets the same answer as the tile centre. |
| Grid.WallAhead | components/GameCanvas.tsx:103-106 | The neighbour test used for turning: never a wall for `None`, otherwise the wall lookup one tile over. |
| Grid.SetTile | components/GameCanvas.tsx:178 | Replacing one tile changes that tile only and keeps every row length. |
| Grid.CountCashSetTile | components/GameCanvas.tsx:333 | Replacing one tile changes the Cash count by exactly what was removed and what was put in. |
| Grid.ConsumeCount | components/GameCanvas.tsx:177-182 | Emptying a Cash tile lowers the Cash count by one; emptying any other tile leaves it unchanged. |
| Grid.CountCash | components/GameCanvas.tsx:333 | The number of Cash tiles on the maze. Its properties are in `Grid.CountCashSetTile` and `Grid.ConsumeCount`. |
| Movement.Intersect | components/GameCanvas.tsx:99-132 | A heading changes only at the centre and never towards a wall. Otherwise the tentative position is kept. Only a player's queued direction is ever cleared. |
| Movement.IntersectOutcomes | components/GameCanvas.tsx:99-132 | The three outcomes and their conditions. (1) Turn into an open queued direction, snapping to the centre; a player's queue is cleared, a police car's kept. (2) Otherwise stop at the centre facing a wall. (3) Otherwise go on to the tentative position. |
| Movement.Wrap | components/GameCanvas.tsx:95-96 | x ends in [-0.5, width-0.5]. Left of -0.5 reappears at width-0.5; right of width-0.5 reappears at -0.5. y is never changed. |
| Movement.Advance | components/GameCanvas.tsx:66-75 | The tentative step along the heading. Its value is stated by `Movement.AdvanceByDelta`. |
| Movement.AdvanceByDelta | components/GameCanvas.tsx:72-75 | The tentative step moves by the heading's tile offsets times the step length, the same offsets the police use for neighbours. `None` does not move. |
| Movement.AtIntersection | components/GameCanvas.tsx:77-87 | Whether the step reaches the centre on the axis the heading watches. `Movement.TunnelLeft` and `TunnelRight` use it. |
| Movement.Stepped | components/GameCanvas.tsx:85-92 | The intersection rule when the centre is reached, otherwise the tentative step. `Movement.MoveTurnsAtCentre` states where headings can change. |
| Movement.Move | components/GameCanvas.tsx:65-97 | After a tick, x lies in [-0.5, width-0.5], and speed and kind are unchanged. |
| Movement.ZeroStepAtCentre | components/GameCanvas.tsx:65-97 | At a tile centre inside the grid's width, a zero-length step keeps the position, and a second zero step changes nothing more. |
| Movement.MoveIdle | components/GameCanvas.tsx:65-97 | A stopped entity with nothing queued, starting inside the wrap range, stays exactly where it is for every tick length. |
| Movement.MoveTurnsAtCentre | components/GameCanvas.tsx:79-91 | A heading changes only at the (wrapped) centre of the tile the entity was on, and the new heading never faces a wall. |
| Movement.TunnelLeft | components/GameCanvas.tsx:95 | Driving left from the first column's left half never meets the turn rule. The car goes straight into the tunnel and comes out at the right edge. |
| Movement.TunnelRight | components/GameCanvas.tsx:96 | Driving right from the last column's right half goes straight on and comes out at -0.5. |
| PoliceAI.Options | components/GameCanvas.tsx:140-144 | The options are exactly the open neighbours, in the order Up, Down, Left, Right. |
| PoliceAI.Without | components/GameCanvas.tsx:147 | The filter keeps exactly the other options, in their order. |
| PoliceAI.FinalOptions | components/GameCanvas.tsx:146-148 | The options without the way back, or all options when none is left. See `PoliceAI.FinalOptionsFacts`. |
| PoliceAI.SqDist | components/GameCanvas.tsx:154-156 | The squared distance from the neighbour tile to the player, never negative. It stands in for the square root, which orders options the same way. |
| PoliceAI.Pick | components/GameCanvas.tsx:150-162 | The chosen index is within the options. Its optimality is `PoliceAI.PickIsPick`. |
| PoliceAI.FinalOptionsFacts | components/GameCanvas.tsx:146-148 | The final options are exactly the options other than the way back, in order. The way back survives only when it is the only option. They are non-empty when the options are. |
| PoliceAI.PickIsPick | components/GameCanvas.tsx:150-162 | The scan's choice is optimal: nearest when chasing, furthest when scared. Every earlier option is strictly worse, so ties go to the earliest. |
| PoliceAI.PickUnique | components/GameCanvas.tsx:150-162 | At most one index meets that rule, so the rule fully determines the choice. |
| PoliceAI.ChooseDirection | components/GameCanvas.tsx:150-162 | The imperative scan, starting from -1 or Infinity, returns the option the rule picks. |
| PoliceAI.Decide | components/GameCanvas.tsx:135-166 | The direction part of a police update. See `PoliceAI.DecideFacts` and `PoliceAI.DecideGreedy`. |
| PoliceAI.PoliceStep | components/GameCanvas.tsx:134-170 | Decide, set the speed for the mode, then move. See `PoliceAI.PoliceStepSpeed` and `Movement.Move`. |
| PoliceAI.DecideFacts | components/GameCanvas.tsx:139-166 | Nothing is decided unless within 0.1 of the centre on both axes. There, with an open neighbour, the queued direction is an open neighbour, the way back only if it is the sole open neighbour, and a stopped car sets off in it. With none, nothing is queued and the heading is kept. |
| PoliceAI.DecideGreedy | components/GameCanvas.tsx:146-165 | The queued direction is optimal for the mode among all open neighbours except the way back, and among the final options. It is strictly better than every final option earlier in the order. |
| PoliceAI.PoliceStepSpeed | components/GameCanvas.tsx:168 | After each update the speed is the scared speed exactly when scared, whether or not a decision was made. |
| PoliceAI.FleeExample | components/GameCanvas.tsx:157-158 | Scared, the further of two neighbours is chosen. |
| PoliceAI.TieExample | components/GameCanvas.tsx:159-160 | Chasing, of two equally near neighbours the earlier one is chosen. |
| Lifecycle.Initial | App.tsx:8-16 | Score 0, 3 lives, START, level 1, no cash counted, no turbo; the state is consistent. |
| Lifecycle.StartPlaying | components/GameCanvas.tsx:333 | The status becomes PLAYING and the cash count is set. Nothing else changes, and consistency is kept. |
| Lifecycle.CollectCash | components/GameCanvas.tsx:179 | Score +10 and one less cash to collect. Nothing else changes, and consistency is kept while cash is left. |
| Lifecycle.CollectTurbo | components/GameCanvas.tsx:182 | The turbo is on with the full duration. Nothing else changes, and consistency is kept. |
| Lifecycle.AwardCapture | components/GameCanvas.tsx:194 | Score +200, nothing else changes. |
| Lifecycle.Damage | components/GameCanvas.tsx:197-201 | When the read lives minus one is at most zero: GAMEOVER with 0 lives. Otherwise lives become that number. Nothing else changes. |
| Lifecycle.Countdown | components/GameCanvas.tsx:305-309 | The timer drops by one. On reaching 0 or less it is set to 0 and the flag is cleared in the same update, so the timer is never negative. |
| Lifecycle.CountdownRunsOut | components/GameCanvas.tsx:304-310 | A turbo of d ticks is still on, with d-k left, after k < d ticks, and off with the timer at 0 after exactly d. |
| Lifecycle.SetScore | App.tsx:79 | Replaces the score and leaves every other field unchanged. |
| Lifecycle.SetLives | App.tsx:80 | Replaces the lives and leaves every other field unchanged. |
| Lifecycle.SetLevel | App.tsx:81 | Replaces the level and leaves every other field unchanged. |
| Lifecycle.SyncAsWritten | components/GameCanvas.tsx:23-30 | The engine's copy of the state becomes the new state exactly when the status differs, and is kept otherwise. |
| Lifecycle.StaleCopyNeverEnds | components/GameCanvas.tsx:197-201 | As written, hits during play all set lives to (lives when play began) - 1, and the game never ends. |
| Lifecycle.StaleCopyNeverScared | components/GameCanvas.tsx:192 | As written, a Turbo collected during play never reaches the copy the engine reads. |
| Lifecycle.FreshHitsEndGame | components/GameCanvas.tsx:197-201 | Reading the current state, n hits from L lives leave L-n lives while n < L, and GAMEOVER with 0 lives from the L-th hit on. |
| Lifecycle.GameOverStays | components/GameCanvas.tsx:197-201 | Once over with 0 lives, further hits keep the game over with 0 lives. |
| Radio.AddMessage | App.tsx:20-27 | The log holds min(previous+1, 3) entries. The new message comes first, followed by the newest previous ones in order. |
| Radio.FeedKeepsNewest | App.tsx:26 | Built from a history of messages, the log holds the newest three, newest first. |
| Collisions.Touching | components/GameCanvas.tsx:187-191 | Closer than 0.6 tiles, compared squared. It selects the cases of `Collisions.HitCop`. |
| Collisions.ResetEntities | components/GameCanvas.tsx:47-55 | The player is at (12,18) with no heading or queue. Car i is at its spawn heading and queuing LEFT. Speeds, the maze and the state are kept. |
| Collisions.ResetIdempotent | components/GameCanvas.tsx:47-55 | Resetting twice is resetting once. |
| Collisions.Pickup | components/GameCanvas.tsx:173-183 | On a Cash or Turbo tile under the rounded player position, the tile is emptied and the matching state update applied. Otherwise, including off the grid, nothing changes. |
| Collisions.PickupIdempotent | components/GameCanvas.tsx:173-183 | A second pickup at the same position changes nothing. |
| Collisions.PickupKeepsCount | components/GameCanvas.tsx:177-182 | The cash left stays equal to the Cash tiles on the maze, and the state stays consistent. |
| Collisions.HitCop | components/GameCanvas.tsx:186-205 | Not touching: nothing. With the turbo: that car goes to (12,10), +200, arrest message. Without: Damage from the read lives; when that ends the game every entity stays where it is, otherwise all are reset. |
| Collisions.HitsFrom | components/GameCanvas.tsx:186-206 | The car tests in order. See `Collisions.HitsFromFacts` and `Collisions.HitsAfterGameOver`. |
| Collisions.CheckCollisions | components/GameCanvas.tsx:172-207 | The pickup, then every car. See `Simulation.CollisionsKeepInv`. |
| Collisions.HitsFromFacts | components/GameCanvas.tsx:186-206 | Over all cars, the maze and cash count are untouched. The status changes only to GAMEOVER, from at most one read life. Lives only become the read lives minus one. With the turbo no life is lost; without it nothing is scored. |
| Collisions.HitsAfterGameOver | components/GameCanvas.tsx:186-206 | After a hit has ended the game, the tests of the remaining cars in the same frame change nothing. |
| Simulation.DecisionDefined | components/GameCanvas.tsx:139-150 | When no open tile is boxed in, a car that is not inside a wall has an open neighbour, so `finalOptions[0]` is defined and a real direction is queued. |
| Simulation.EmptyingKeepsShape | components/GameCanvas.tsx:178-181 | Emptying an open tile, as a pickup does, keeps the maze rectangular with no boxed-in open tile. |
| Simulation.EmptyingKeepsOptions | components/GameCanvas.tsx:178-181 | Emptying a tile never closes a neighbour that was open. |
| Simulation.MoveAll | components/GameCanvas.tsx:299-301 | Movement leaves the maze, the state and the log untouched and keeps three cars. The per-entity result is `Simulation.MoveAllParts`. |
| Simulation.MoveAllParts | components/GameCanvas.tsx:299-301 | The movement half of a frame: the player moves first, then each car updates towards the player's new position with the turbo flag of the frame. `MoveAll` needs nothing of the cars' surroundings: a car with no open neighbour is covered too. |
| Simulation.MoveAllKeepsInv | components/GameCanvas.tsx:299-301 | Movement keeps the world invariant, including every entity's kind. |
| Simulation.PickupKeepsInv | components/GameCanvas.tsx:173-183 | In play the pickup keeps the world invariant, the lives and the status, and never lowers the score. |
| Simulation.CollisionsKeepInv | components/GameCanvas.tsx:172-207 | The collision phase keeps the invariant. The game ends only from the last life, at most one life is lost, none with the turbo on, and the score never falls. |
| Simulation.Resolve | components/GameCanvas.tsx:302-310 | Collisions with the start-of-frame state, then the countdown when the turbo was on. See `Simulation.ResolveFacts`. |
| Simulation.ResolveFacts | components/GameCanvas.tsx:302-310 | The same facts after collisions and the turbo countdown. |
| Simulation.Step | components/GameCanvas.tsx:294-311 | One frame, only while playing. See `Simulation.StepFacts`. |
| Simulation.StepFacts | components/GameCanvas.tsx:294-311 | A frame keeps the invariant. Outside play nothing changes. GAMEOVER comes only from the last life, at most one life is lost, none during a turbo, and the score never falls. |
| Simulation.InvInitAndEvents | components/GameCanvas.tsx:19-55 | The invariant holds at mount, and after every key press, start and reset. |
| Simulation.KeyDirection | components/GameCanvas.tsx:272-279 | Each steering direction is produced by exactly its key, w/s/a/d in either case. |
| Simulation.PressKey | components/GameCanvas.tsx:271-290 | Other keys change nothing. The key straight back is taken at once and the queue cleared; any other steering key is queued. The position never changes. |
| Simulation.ReverseThenSame | components/GameCanvas.tsx:284-288 | After a reversal, the same key again is only queued. |
| Simulation.StartGame | components/GameCanvas.tsx:333 | PLAYING, counting the Cash tiles on the maze. Entities, maze and log are unchanged. |
| Simulation.ResetGame | components/GameCanvas.tsx:346-354 | The initial state and a fresh layout. The player is at its spawn with no heading or queue. Each car is at its spawn heading and queuing LEFT. Speeds and kinds are kept. |
| Simulation.Init | components/GameCanvas.tsx:19-55 | At mount: the initial state and a copy of the layout. The mount effect's reset has every car at its spawn heading LEFT. |
| Engine.MinReal | components/GameCanvas.tsx:296 | The smaller of two reals. |
| Engine.FrameDelta | components/GameCanvas.tsx:295-297 | The frame length is 0 on the first frame. It is the elapsed time when at most 100 ms have passed, and exactly 0.1 s otherwise. |
| Engine.Entity.constructor | types.ts:9-16 | An entity object with exactly the given value. |
| Engine.Game.constructor | components/GameCanvas.tsx:19-55 | The canvas at mount equals `Init` and satisfies the invariant. |
| Engine.Game.StatusEffect | components/GameCanvas.tsx:23-30 | On START: the layout is restored and the entities are reset. Otherwise nothing changes. |
| Engine.Game.ResetEntities | components/GameCanvas.tsx:47-55 | The entity objects end in exactly the pure `ResetEntities` world. |
| Engine.Game.HandleIntersection | components/GameCanvas.tsx:99-132 | The entity ends in exactly the `Intersect` outcome. |
| Engine.Game.MoveEntity | components/GameCanvas.tsx:65-97 | The entity ends in exactly the `Move` result. |
| Engine.Game.OpenNeighbours | components/GameCanvas.tsx:140-144 | The pushed list equals `Options`. |
| Engine.Game.DecideDirection | components/GameCanvas.tsx:135-166 | The car ends in exactly the `Decide` result. |
| Engine.Game.UpdatePoliceAI | components/GameCanvas.tsx:134-170 | The car ends in exactly the `PoliceStep` result. |
| Engine.Game.MovePolice | components/GameCanvas.tsx:301 | Every car ends in its own `PoliceStep` result, all with the same player position. |
| Engine.Game.MoveEntities | components/GameCanvas.tsx:300-301 | The world after moving equals `MoveAll`. |
| Engine.Game.Pickup | components/GameCanvas.tsx:173-184 | The maze and state equal the pure `Pickup`. |
| Engine.Game.HitCop | components/GameCanvas.tsx:186-205 | The world equals the pure `HitCop`. |
| Engine.Game.CheckCollisions | components/GameCanvas.tsx:172-207 | The world equals the pure collision phase. |
| Engine.Game.PlayFrame | components/GameCanvas.tsx:300-310 | The world equals `Resolve` after `MoveAll`. |
| Engine.Game.Tick | components/GameCanvas.tsx:299-311 | The world equals `Step`, and the invariant is kept. |
| Engine.Game.Frame | components/GameCanvas.tsx:294-311 | The world equals `Step` with the capped frame length, and the invariant is kept. |
| Engine.Game.HandleKey | components/GameCanvas.tsx:271-290 | The player equals `PressKey`, and the invariant is kept. |
| Engine.Game.StartGame | components/GameCanvas.tsx:333 | The world equals the pure `StartGame`, and the invariant is kept. |
| Engine.Game.ResetGame | components/GameCanvas.tsx:346-354 | The world equals the pure `ResetGame`, and the invariant is kept. |

## Left out

- Drawing on the canvas and all markup (the HUD, the radio panel, the overlays) are not modelled. They only render.
- The animation-frame scheduling is not modelled. The frame timestamp and the `Date.now` clock reading used as a message id are parameters (`time`, `now`).
- The asynchronous commentary request made when a Turbo is collected (`services/geminiService.ts`) is left out. It is a network call whose result only adds a radio line later.
- React's batching of state updates is not modelled; each updater is applied at once, in the order the source issues them. The engine state and the app state are one record. The radio log is a field of the world.
- Floating-point rounding is not modelled: positions, speeds and distances are mathematical reals, and squared distances replace `Math.sqrt`.
- The entity identifiers ("player", "cop_1", ...) are kept on the objects but play no part in any rule.
- PoliceAI.Decide: a car near a centre with no open neighbour gets `finalOptions[0]`, which is `undefined`; the model queues None instead. The two behave alike in the movement rule, with one difference. A stopped car given `undefined` as heading is never restarted by line 165, even after an arrest moves it; the model restarts it. `Simulation.DecisionDefined` shows this case needs a car inside a wall, or a layout where an open tile is walled in on all four sides.
- A zero-length step at a tile centre does not always keep the heading. The first such step still applies the intersection rule and can take a queued turn into an open direction. Only the position is kept, and a second zero step changes nothing (`Movement.ZeroStepAtCentre`).
- That no entity ever enters a wall tile is not proved. It holds only when the speeds and frame lengths are small enough that the turn rule meets every tile centre on the way, and the constants module is not part of this model.
- The constants module (layout, speeds, turbo duration) is not part of this model. Its values are the `Config` parameter, required to be a rectangular layout with a positive turbo duration. Layouts with thick wall blocks are allowed.
- The WIN and LEVEL_UP statuses exist in the state type but are never entered by this code. Collecting the last Cash tile ends nothing, and the level never changes.
- The score, lives and level callbacks the app passes to the canvas are modelled (`Lifecycle.SetScore`, `SetLives`, `SetLevel`), but the canvas never calls them.
- An arrested car is put at (12,10) whichever car it is, as the code does, rather than back at its own spawn.
- A life-ending hit does not stop the remaining cars from being tested in the same frame, as in the code. Those later tests change nothing (`Collisions.HitsAfterGameOver`).
- Simulation.StartGame: requires status START, because the button that issues it is only shown then.
- Simulation.ResetGame: requires status GAMEOVER, because the button that issues it is only shown then.

## Findings

| source | as written | input that shows it | evidently intended | confidence | as-written member | corrected member |
|---|---|---|---|---|---|---|
| components/GameCanvas.tsx:23-30 | The engine's copy of the game state is refreshed only by an effect that depends on `gameState.status`. During play it keeps the state stored when play began. Collisions (lines 192, 197) and the turbo countdown (line 304) read that copy. | Start a game with 3 lives and get hit three times. Each hit computes 3 - 1 and sets lives to 2, so the game never reaches GAMEOVER. A collected Turbo never reaches the copy either, so police are never arrested or scared and the timer never counts down. | Each frame reads the current state, so every hit costs one life, the last one ends the game, and the Turbo takes effect. | not executed | Lifecycle.StaleCopyNeverEnds | Lifecycle.FreshHitsEndGame |
