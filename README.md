# Space invasion: the game logic of one frame

This project models the simulation core of a browser Space-Invaders clone, all of it in `index.js`.

- **The formation.** Fifty-five invaders sit in a fixed 5 x 11 grid. A turn pointer (`tick`, 54 down to -1) picks the single invader that moves on each `update`. It moves 2 units sideways, or 8 units down while the formation descends. When a sweep is exhausted, the direction and descent flags change and the sweep starts over.
- **Enemy fire.** The formation fires one missile from the bottom-most invader of a randomly chosen non-empty column whenever it has no missile in flight.
- **The ship.** It moves left and right inside the field. It fires while it is below its missile capacity and its cooldown has run out.
- **Missiles.** Every missile moves by its speed each frame and removes itself from its owner's array once it leaves the field.
- **Collisions.** Both collision checks splice hit missiles out of the array they are iterating.

The model keeps the source's form:
- The three kinds of objects the source updates in place are classes with `modifies` frames: the missile (`Projectiles.Missile`), the missile array (`Projectiles.Pool`) and the formation (`Formation.Invaders`).
- So are the ship (`Player.Ship`) and the whole game (`Game.Game`).
- Every loop of the source is a `while` loop with its invariants.
- Each state change is proved equal to a value-level function in `Projectiles`, `Swarm`, `Collisions`, `Player` and `Game`.
- The properties the game relies on are proved about those functions as lemmas.

`Game.Frame` composes them into one frame of the game logic. Input is three booleans (left, right, fire). The random shooter pick is an index `k`.

Iterating an array with `for..of` while splicing it skips elements.
- When a missile is removed during a collision check or an advance, the missile that shifts into its slot is not visited in that frame.
- Nothing in the loops compensates for the shift, and the model follows the code.
- The skip is stated outright in `Projectiles.FlySkipsAfterExit`, `Collisions.VolleySkipsAfterHit` and `Player.ShipHitsSkipsAfterHit`.

## Model

| member | source | states |
|---|---|---|
| Geometry.OverlapIsSound | index.js:434-444 | every hit `overlap` reports is a genuine intersection of the two boxes' interiors |
| Geometry.TouchingEdgesDoNotOverlap | index.js:434-444 | boxes that only touch along an edge, on either axis and either side, never overlap |
| Geometry.NoSelfOverlap | index.js:434-444 | because both bounds are strict, no box overlaps an identical box |
| Geometry.MissileExample | index.js:434-444 | the 1x4 box at (50, 48) overlaps (48, 48, 11, 8); the same box at x = 60 does not |
| Geometry.OverlapIsNotSymmetric | index.js:434-444 | a containing box intersects the box it contains yet does not overlap it, while the contained box overlaps the container |
| Geometry.OverlapX | index.js:434-436 | `overlapX`: the left or the right edge of `a` lies strictly inside `b`'s x-extent; the properties of the whole test are the `Geometry` lemmas above |
| Geometry.OverlapY | index.js:438-440 | `overlapY`: the same test on the y-extents |
| Geometry.Overlap | index.js:442-444 | `overlap`: both axis tests hold; sound against `Intersects` by `OverlapIsSound`, strict at edges by `TouchingEdgesDoNotOverlap` |
| Projectiles.IndexOf | index.js:154-159 | `indexOf`: the result is -1 exactly when the element is absent; otherwise it is an index holding the element with no earlier occurrence |
| Projectiles.RemoveElement | index.js:154-159 | `removeElement` splices out the first identical element and keeps the rest in order; it changes nothing when the element is absent |
| Projectiles.RemoveDistinct | index.js:154-159 | in an array without repeats, removing the element at k splices out exactly position k, and the element is then gone |
| Projectiles.StatesOf | index.js:211-219 | the value list of a missile array has the array's length and, at each position, that missile's position and speed |
| Projectiles.StatesOfSplice | index.js:154-159 | splicing position i out of a missile array splices position i out of its values |
| Projectiles.Missile.constructor | index.js:212-219 | a new missile carries the given position, speed and owner array |
| Projectiles.Missile.Update | index.js:220-226 | `y` grows by `speed`, and the missile is removed from its owner array exactly when the new `y` lies outside [0, 256] |
| Projectiles.Pool.constructor | index.js:168-180 | a new missile array is empty and valid (`this.missiles = []`) |
| Projectiles.Pool.Remove | index.js:154-159 | the array becomes `removeElement` of its old contents |
| Projectiles.Pool.Push | index.js:191-198 | pushing a fresh missile owned by the array appends it and keeps the array valid |
| Projectiles.PoolsDisjoint | index.js:212-219 | two different missile arrays share no missile, since each missile names a single owner |
| Projectiles.ShotsUnchanged | index.js:211-230 | an array none of whose missiles changed holds the same missile values |
| Projectiles.FlyFrom | index.js:93-95 | iterating the update over the array from index i on never lengthens it |
| Projectiles.FlyWithinField | index.js:93-95 | when no missile leaves the field, each one moves exactly once and none is dropped |
| Projectiles.FlyFromWithinField | index.js:93-95 | the same from index i on: the prefix before i is untouched and every later missile moves once |
| Projectiles.FlySkipsAfterExit | index.js:93-95 | the missile behind one that leaves the field is not updated in that frame |
| Projectiles.Fly | index.js:93-95 | the values after one `for..of` pass calling `update` on every missile of an array; `AdvanceAll` is proved to have this effect. `FlyWithinField` covers passes with no exit, `FlyKeepsStayers` shows that every missile staying in the field survives any pass, and `FlySkipsAfterExit` exhibits the skip |
| Projectiles.FlyFromPrefix | index.js:93-95 | the pass from index i on never changes a missile at a slot already visited |
| Projectiles.FlyKeepsStayers | index.js:93-95 | a missile whose move keeps it inside [0, 256] survives the pass: moved, or unmoved if it was the one shifted into a freed slot |
| Projectiles.FlyFromKeepsStayers | index.js:93-95 | the suffix form: a stayer at or after index i survives the rest of the pass |
| Projectiles.AdvanceAll | index.js:93-95 | `for (const m of pool) m.update()` leaves the array holding `Fly` of its old values, keeps it valid and adds no missile |
| Projectiles.UpdateAt | index.js:220-226 | one iteration of that loop takes exactly the step `FlyFrom` takes at index i, and the array only shrinks |
| Projectiles.SpliceKeeps | index.js:154-159 | every element left after a splice was in the array before |
| Projectiles.OneMoved | index.js:220-226 | after one missile has moved and no other has changed, the array's values are the old ones with that entry moved |
| Swarm.HitBoxCentred | index.js:393-398 | the hit box lies inside the invader's 16-wide cell, with the spare width split evenly and the odd unit on the right |
| Swarm.Invader.Move | index.js:389-392 | `move(axis, distance)`: adds `distance` to `x` or to `y`, as the axis says, and keeps the size |
| Swarm.Invader.XOffset | index.js:393-395 | the hit box's left edge, `x + floor((16 - w) / 2)`; `HitBoxCentred` proves it centred in the cell |
| Swarm.Invader.HitBox | index.js:396-398 | the `hitBox` getter: the box at `XOffset()` and `y` with the invader's own width and height |
| Swarm.SpawnInvaders | index.js:410-430 | `spawnInvaders`: a 5 x 11 grid of live invaders, cell (r, c) at x = 16 + 16c and y = startY + 16r, width 8, 11 or 12 by row, height 8 |
| Swarm.RowOf | index.js:325-332 | the row of a pointer value in 0..54 is one of the 5 rows |
| Swarm.ColOf | index.js:325-332 | the column of a pointer value in 0..54 is one of the 11 columns, in either direction |
| Swarm.TickToCell | index.js:325-332 | the pointer-to-cell map is inverted on the pointer side, for either direction |
| Swarm.CellToTick | index.js:325-332 | every cell is designated by exactly one pointer value in 0..54, for either direction: the map is a bijection |
| Swarm.NextLive | index.js:324-340 | where `nextInvader` leaves the pointer: the largest value at or below the start that designates a live cell, or -1, with every value skipped designating an empty cell |
| Swarm.SweepFindsInvader | index.js:268-281 | in a grid with a live invader, a sweep from 54 finds one in either direction, so `update` recurses at most once |
| Swarm.RowInvadersEmpty | index.js:315-323 | a row contributes no invader exactly when all its cells are empty |
| Swarm.ClearedIffAllEmpty | index.js:341-344 | `cleared` holds exactly when every cell of the grid is empty |
| Swarm.LiveInvaders | index.js:315-323 | the `invaders` getter: the live invaders row by row, left to right; `AllInvaders` computes it and `ClearedIffAllEmpty` gives its emptiness |
| Swarm.Cleared | index.js:341-344 | the `cleared` getter: the `invaders` list is empty, which `ClearedIffAllEmpty` proves equivalent to an all-empty grid |
| Swarm.Column | index.js:283-289 | `getColumn(c)`: the live invaders of column `c`, top to bottom; `ColumnEmptyIff` and `ColumnLastIsBottom` state what it holds |
| Swarm.ColumnUpToEmpty | index.js:283-289 | the first n rows of a column list no invader exactly when those n cells are empty |
| Swarm.ColumnUpToAtEdge | index.js:303 | every invader a column lists is at the edge exactly when every live cell of the column is |
| Swarm.ColumnUpToLast | index.js:351-352 | the last invader a column lists sits in its lowest live cell |
| Swarm.ColumnEmptyIff | index.js:283-289 | `getColumn` returns an empty list exactly when all five cells of the column are empty |
| Swarm.ColumnLastIsBottom | index.js:351-352 | the last invader of a non-empty column is the bottom-most live cell of that column |
| Swarm.ScanDown | index.js:295-302 | the rightward scan of `isAtBoundary` stops at the first non-empty column from the right, having passed only empty ones, or reports -1 |
| Swarm.ScanUp | index.js:305-311 | the leftward scan stops at the first non-empty column from the left, having passed only empty ones, or reports -1 |
| Swarm.LeadingColumn | index.js:293-311 | the column `isAtBoundary` tests: `ScanDown` from column 10 when moving right, `ScanUp` from column 0 when moving left |
| Swarm.AtBoundary | index.js:293-314 | `isAtBoundary`: the leading column exists and all its invaders are at the edge (x >= 208 moving right, x <= 0 moving left); `AtBoundaryMeaning` ties it to an independent definition |
| Swarm.AtBoundaryMeaning | index.js:293-314 | `isAtBoundary` holds exactly when a leading column exists and every live invader in it has reached the edge: x >= 208 moving right, x <= 0 moving left |
| Swarm.EmptyNotAtBoundary | index.js:293-314 | an empty formation is never at the boundary |
| Swarm.BoundaryThreshold | index.js:303 | moving right, a leading column standing at x = 208 is at the boundary, and one invader at x = 207 keeps it off |
| Swarm.NonEmptyAbove | index.js:346-349 | the indices the `shooter` loop has collected so far lie among the columns it has already passed; that they are exactly the non-empty ones, in descending order, is `NonEmptyAboveListed`, `NonEmptyAboveComplete` and `NonEmptyAboveDecreasing` |
| Swarm.NonEmptyAboveComplete | index.js:346-349 | every non-empty column the `shooter` loop has passed is in its list |
| Swarm.NonEmptyAboveDecreasing | index.js:346-349 | the list runs from column 10 down: its column indices strictly decrease |
| Swarm.ValidColumns | index.js:346-349 | `validColumns`: the non-empty columns from column 10 down to column 0, exactly those by `NonEmptyAboveListed`, `NonEmptyAboveComplete` and `NonEmptyAboveDecreasing` |
| Swarm.Shooter | index.js:345-353 | the `shooter` getter with the random pick as `k`: the last invader of the `k`-th valid column |
| Swarm.NonEmptyAboveListed | index.js:346-349 | every column that loop collects is non-empty |
| Swarm.NonEmptyAboveEmpty | index.js:346-349 | that loop collects nothing exactly when every column it passed is empty |
| Swarm.ColumnsAtStep | index.js:346-349 | one iteration of the `shooter` loop appends the column exactly when it is non-empty |
| Swarm.SomeColumnNonEmpty | index.js:345-353 | if some column is collected, the grid holds a live invader |
| Swarm.NoColumnNonEmpty | index.js:345-353 | if no column is collected, the grid is empty |
| Swarm.ShooterExistsIffNotCleared | index.js:345-353 | a shooter can be picked exactly when the formation is not cleared |
| Swarm.ShooterIsBottomMost | index.js:345-353 | whatever the pick, the shooter is a live invader with no live invader below it in its column |
| Swarm.ValidColumnsPosition | index.js:346-349 | every non-empty column appears in `validColumns`, at some position k |
| Swarm.EveryColumnCanShoot | index.js:345-353 | conversely, the bottom-most invader of every non-empty column is the shooter for some pick |
| Swarm.EnemyShot | index.js:354-356 | the missile `shoot(shooter)` creates: at the shooter's x + 8 and y + 8, falling at `missileSpeed` 2 |
| Swarm.March | index.js:241-282 | the movement part of `update` keeps the pointer in range, leaves it below 54 and never clears the formation |
| Swarm.MarchWithinSweep | index.js:256-267 | within a sweep, `update` steps the invader at the pointer, keeps the flags and leaves the pointer one below that invader |
| Swarm.MarchMovesOne | index.js:241-282 | one `update` moves exactly one live invader, 8 down when descending and otherwise 2 in the direction of travel; every other cell is unchanged |
| Swarm.MarchAfterTurn | index.js:268-281 | when the sweep is exhausted, the invader moved is the one the restarted sweep designates, stepped with the new flags |
| Swarm.MarchKeepsCells | index.js:241-282 | `update` only moves invaders: live cells stay live and empty cells stay empty |
| Swarm.MarchTurns | index.js:268-281 | an exhausted sweep restarts from 54 with the new flags, and that sweep finds an invader at once |
| Swarm.MarchSweep | index.js:256-281 | on exhaustion a descending formation stops descending and reverses, any other one descends exactly when at the boundary; the pointer restarts from 54 |
| Swarm.StepInvader | index.js:257-266 | what `update` does to the invader it picks: 8 down while descending, otherwise 2 towards the direction of travel |
| Swarm.Turned | index.js:268-279 | the state `update` restarts from on an exhausted sweep: pointer 54, and the flag rules that `MarchSweep` states |
| Collisions.Struck | index.js:358-370 | testing one missile against every cell keeps the grid 5 x 11 |
| Collisions.StruckUnchangedIffMiss | index.js:358-370 | testing a missile leaves the grid unchanged exactly when it hits no live invader |
| Collisions.HitSurvivesStrike | index.js:358-370 | a cell a missile hits after another missile's strike was already a hit before it: strikes only empty cells |
| Collisions.VolleyFrom | index.js:357-373 | the collision loop from index i on keeps the grid 5 x 11 and never lengthens the array |
| Collisions.VolleyStep | index.js:357-373 | one iteration: the missile at i strikes the grid and is spliced out exactly when it hit something |
| Collisions.HitBySomeAfterSplice | index.js:357-373 | a cell hit by a missile of the spliced array is hit by one of the original array |
| Collisions.VolleyOnlyEmptiesHitCells | index.js:357-373 | the collision check never revives or alters a cell: each one stays as it was or is emptied, and only when some incoming missile hits it |
| Collisions.VolleyFromOnlyEmptiesHitCells | index.js:357-373 | the same from index i on |
| Collisions.VolleyConsumesOnlyHitters | index.js:357-373 | missiles are only removed, and only missiles that hit a live invader |
| Collisions.VolleyFromOnlyRemoves | index.js:357-373 | from index i on, the missiles left are a sub-multiset of those before |
| Collisions.VolleyFromConsumesOnlyHitters | index.js:357-373 | from index i on, every missile removed hit a live invader |
| Collisions.VolleyOfMisses | index.js:357-373 | when no missile hits anything, neither the grid nor the array changes |
| Collisions.VolleyFromOfMisses | index.js:357-373 | the same from index i on |
| Collisions.VolleyOfOne | index.js:357-373 | a single missile empties every cell it overlaps, not only the first, and is consumed exactly when it hits something |
| Collisions.VolleySkipsAfterHit | index.js:357-373 | the missile behind one that hits is not tested in that frame |
| Collisions.Hit | index.js:361-364 | the test for one cell and one missile: the cell holds an invader and the missile overlaps its hit box |
| Collisions.Volley | index.js:357-373 | `checkForCollisions(missiles)` on values: the grid and the array after the whole loop; the `Volley` lemmas above say what it keeps, removes and empties |
| Formation.Invaders.constructor | index.js:233-240 | a new formation holds the full spawned grid, the pointer at 54, moving right, not descending, with no missiles |
| Formation.Invaders.GetColumn | index.js:283-289 | `getColumn(col)` returns the live invaders of that column, top to bottom |
| Formation.Invaders.IsAtBoundary | index.js:293-314 | the `isAtBoundary` getter computes the boundary test, including false for an empty grid |
| Formation.Invaders.AllInvaders | index.js:315-323 | the `invaders` getter lists every live invader, row by row |
| Formation.Invaders.IsCleared | index.js:341-344 | the `cleared` getter holds exactly when no invader is listed |
| Formation.Invaders.PickShooter | index.js:345-353 | the `shooter` getter returns the bottom-most invader of the k-th non-empty column, counted from column 10 down |
| Formation.Invaders.NextInvader | index.js:324-340 | `nextInvader` leaves the pointer at the largest live index at or below it, or -1, and returns that cell or `Empty`; grid and flags are unchanged |
| Formation.Invaders.Shoot | index.js:354-356 | `shoot` appends one missile at (x + 8, y + 8) with speed 2 and nothing else |
| Formation.Invaders.Update | index.js:241-282 | `update` moves the formation as `March` does and fires `EnemyShot(Shooter)` exactly when it had no missile in flight; the pointer stays in [-1, 54] |
| Formation.Invaders.FireIfIdle | index.js:252-254 | a missile is added, exactly one, only when the array was empty |
| Formation.Invaders.MoveNext | index.js:255-281 | it reports a move exactly when the sweep still has a live invader, and then has the effect of `March`; otherwise it turns without moving: the state becomes `Turned` of the old one (pointer 54, new flags), and the next sweep will find an invader |
| Formation.Invaders.CheckForCollisions | index.js:357-373 | the grid and the incoming array become `Volley` of their old values; the formation's pointer and flags are unchanged and no missile is added |
| Formation.Invaders.CollideAt | index.js:358-371 | one iteration for the missile at i takes the step `VolleyFrom` takes at i |
| Formation.Invaders.StrikeAll | index.js:359-370 | the two inner loops empty every cell the missile hits and remove the missile if it hit anything |
| Formation.Invaders.StrikeRow | index.js:360-369 | the scan of one row continues the backwards scan of the grid by that row |
| Formation.Invaders.StrikeCell | index.js:361-368 | the test of one cell advances the scan by that cell |
| Formation.StruckUpTo | index.js:359-370 | the partially scanned grid stays 5 x 11 |
| Formation.StruckUpToStart | index.js:359-370 | before the scan, the grid is unchanged |
| Formation.StruckUpToEnd | index.js:359-370 | after the scan of every row, the grid is `Struck` |
| Formation.StruckUpToStep | index.js:361-368 | the cell about to be scanned still has its original value, and scanning it empties it exactly when the missile hits it |
| Formation.StruckUpToRowEnd | index.js:360-369 | the end of one row is the start of the row above |
| Formation.HitScannedStep | index.js:361-368 | scanning a missed cell does not change whether the missile has hit |
| Formation.HitScannedRowEnd | index.js:360-369 | whether the missile has hit is carried from the end of one row to the start of the row above |
| Formation.StrikeStep | index.js:358-371 | testing the missile at i against the grid takes the step `VolleyFrom` takes at i, and only removes |
| Formation.RemoveDistinctAbsent | index.js:364 | a second `removeElement` of a missile already removed changes nothing |
| Player.MoveStaysInField | index.js:181-190 | with a non-negative speed, `move` keeps the ship inside [0, 209] and never overshoots the edge it moves towards |
| Player.MovesCancel | index.js:181-190 | away from the edges, a move right undoes a move left and vice versa |
| Player.EdgesHold | index.js:181-190 | at an edge, moving further into it changes nothing |
| Player.Stepped | index.js:181-190 | `x` after `move`: one `speed` step left or right, clamped at 0 or at 209; `MoveStaysInField`, `MovesCancel` and `EdgesHold` are about it |
| Player.FiredWithinCapacity | index.js:191-198 | `shoot` adds at most one missile, exactly when below capacity with the cooldown run out, never exceeds the capacity and changes only the cooldown besides |
| Player.FiredStartsCooldown | index.js:191-198 | after firing, the ship cannot fire for `rateOfFire` frames of `canShoot--`, and can again once they have passed while below capacity |
| Player.CanFire | index.js:192-193 | `shoot` fires exactly when fewer than `missileCapacity` missiles are live and `canShoot <= 0` |
| Player.Muzzle | index.js:194 | the missile `shoot` creates: at x + 7 and 4 above the ship, moving up at `missileSpeed` |
| Player.Fired | index.js:191-198 | the ship and its missile values after `shoot()`: the `Muzzle` missile appended and the cooldown reset when `CanFire`, otherwise nothing; `FiredWithinCapacity` states its effect |
| Player.ShipHitsFrom | index.js:199-205 | the ship's collision loop from index i on never lengthens the array |
| Player.ShipHitsRemoveOnlyOverlapping | index.js:199-205 | only enemy missiles that overlap the ship are removed, each at most as often as it occurs |
| Player.ShipHitsFromOnlyRemoves | index.js:199-205 | from index i on, the missiles left are a sub-multiset of those before |
| Player.ShipHitsFromRemoveOnlyOverlapping | index.js:199-205 | from index i on, every missile removed overlaps the ship |
| Player.ShipHitsOfMisses | index.js:199-205 | missiles that all miss the ship are all kept, in order |
| Player.ShipHitsFromOfMisses | index.js:199-205 | the same from index i on |
| Player.ShipHitsSkipsAfterHit | index.js:199-205 | when the first of two missiles strikes the ship, the second is not tested and survives |
| Player.ShipHits | index.js:199-205 | the ship's `checkForCollisions(missiles)` on values; the `ShipHits` lemmas above say which missiles it removes |
| Player.Ship.constructor | index.js:168-180 | a new ship has the default stats (speed 1, capacity 1, missile speed 3, rate of fire 15, cooldown 0) and no missiles |
| Player.Ship.Move | index.js:181-190 | `move` changes only `x`, to the clamped step |
| Player.Ship.Shoot | index.js:191-198 | `shoot` has the effect of `Fired` on the ship and its missile values |
| Player.Ship.CheckForCollisions | index.js:199-205 | the incoming array becomes `ShipHits` of its old values; only that array is modified, so the position and health are unchanged |
| Player.Ship.CollideAt | index.js:200-204 | one iteration for the missile at i takes the step `ShipHitsFrom` takes at i |
| Game.ShipPhase | index.js:90-97 | the ship's half of a frame leaves the formation untouched |
| Game.FormationPhase | index.js:98-102 | the formation's half leaves the ship untouched and keeps the formation state in range |
| Game.FrameKeepsOneEnemyMissile | index.js:90-102 | the formation never has more than one missile in flight |
| Game.FrameKeepsShipCapacity | index.js:90-102 | the ship never has more missiles in flight than its capacity |
| Game.FrameKeepsShipInField | index.js:90-102 | with a non-negative speed, the ship stays inside [0, 209] |
| Game.FrameNeverRevives | index.js:90-102 | a destroyed invader never comes back, and once the formation is cleared it no longer changes |
| Game.Frame | index.js:90-102 | the game logic of one frame: `ShipPhase`, then `FormationPhase`; the `FrameKeeps` lemmas and `FrameNeverRevives` state what it preserves |
| Game.Game.constructor | index.js:78-79 | a new game starts with the default ship at the given x, a full 5 x 11 formation spawned from the given y and moving right from pointer 54, and no missiles |
| Game.Game.Step | index.js:90-102 | one frame of the game logic has the effect of `Frame` on the whole game state |
| Game.Game.ShipStep | index.js:90-97 | the ship's half of the frame has the effect of `ShipPhase`; the formation is unchanged and no enemy missile is added |
| Game.Game.ShipControls | index.js:91-92 | `canShoot--`, then left, right and fire as pressed (`getInput`) |
| Game.Game.FormationStep | index.js:98-102 | the formation's half has the effect of `FormationPhase`; the ship is unchanged |
| Game.Game.EnemyMove | index.js:99-100 | `invaders.update()` and the advance of the formation's missiles; the ship's missiles are unchanged |

## Left out

- Drawing (every `draw` method), canvas sizing and scaling: they only render.
- Keyboard and touch wiring and the `requestAnimationFrame` clock: the three keys are the booleans `left`, `right` and `fire` of `Game.Game.Step`, and `elapsed` is never used by the logic.
- `Math.random` in the `shooter` getter: the pick is the parameter `k`. `Game.Game.Step` and `Game.Game.FormationStep` require it to be a valid index into `ValidColumns` whenever the formation is not cleared, whether or not the formation fires in that frame; such a `k` always exists then, by `Swarm.ShooterExistsIffNotCleared`.
- `getRow`: no other code uses it.
- `upgradePlayer` and the player-parameter form: the upgradable stats are fields of `Player.Ship` that no modelled operation changes.
- A UFO, scores and ship health loss: the code has none of these. `health` is a constant that nothing changes.
- Formation.Invaders.Update: requires a formation that is not cleared. On an empty grid the source's `update` fails in one of two ways. With no formation missile in flight, the `shooter` getter finds no valid column and reading the last element of the undefined column throws (index.js:351-352). With a missile in flight, every sweep finds no invader and `update` calls itself without end. The frame never calls `update` then, because it checks `cleared` first.
- Invaders are immutable values in the grid. The source's `move` mutates the `Invader` object held in the cell; the model replaces the cell's value instead. No other reference to an invader object is kept, so the effect is the same.
- `Invader.move` on an axis other than `'x'` or `'y'` does nothing in the source. The model's `Axis` has only `X` and `Y`, and `Ship.Move` takes only `Left` or `Right`, because no caller passes anything else.
- `overlap` returns `undefined` rather than `false` when it fails. The model uses booleans, and every caller only tests truthiness.
- Integer arithmetic is unbounded. All values in the game stay far inside the range where JavaScript numbers are exact.
