# Fireboy and Watergirl: physics, collision and level rules in Dafny

This project models the game core of a two-character tile platformer
written in C# on SplashKit. FireBoy (type "fire") and WaterGirl (type
"water") move through a level built on a grid of square tiles. The model
covers:

- The character: its collision box, its centre-based `Position` over a
  stored sprite corner, and its animation choice.
- The per-tick integrator: horizontal input with friction, the jump, the
  grounded reset and gravity.
- The swept mover. It tries the whole displacement, marches in 0.1-long
  steps when the target collides, backs off to the last collision-free
  fraction and stops the blocked axes.
- The tile-grid query.
- The box-versus-box side classification, and the responses that snap a
  character onto an obstacle.
- The game objects: moving platforms, levers with a debounce timer,
  pressure buttons, exit doors, hazard pools and diamonds.
- The interaction passes of both collision managers.
- One level's update and score.
- The singleton level driver.
- The object lists.
- The high-score table with its text file format.

Modelling conventions:

- Coordinates and velocities are exact reals. The tuning constants are
  read as exact decimals.
- `RectanglesIntersect` is strict overlap: boxes that only share an edge
  do not intersect. `Geometry.Intersects` is the one definition.
- A C# `(int)` cast truncates toward zero (`Geometry.Trunc`).
- The tile layer is an input (`CollisionDetector.Grid`). So are:
  - the key state (`Characters.Input`);
  - the elapsed timer ticks (`Timers.Advance`, `elapsedMs`);
  - the file contents;
  - the length of a displacement. The swept search needs `Math.Sqrt(dx² + dy²)`; the caller passes `dist` with `dist ≥ 0` and `dist² = dx² + dy²`.
- Mutating methods become pure functions that return the new state.
- A `foreach` becomes recursion over a sequence. A `break` or `return`
  inside the loop becomes an early result.
- A `ref` parameter becomes a returned component.

The static `Physics` class is an older copy of the integrator, swept
mover and tile scan, specialised to characters. It is modelled on its own
(`physics.dfy`), including its own tile scan loops, and proved equal to
the system classes it duplicates.

The collision resolver is kept as written. A character on an obstacle's
Left side is pushed only while `vx < 0`, and on its Right side only while
`vx > 0`. As a result, a character walking into a wall is left overlapping
it (`CollisionResolver.WalkingIntoWallIsNotResolved`).

## Model

| member | source | states |
|---|---|---|
| Geometry.IntersectsSymmetric | GameObjects/Hazards/Hazards.cs:56-66 | Whether two boxes overlap does not depend on the order they are given in, which is why a range check may test either box first. |
| Geometry.Trunc | CollisionSystem/CollisionDetector.cs:78-81 | The `(int)` conversion of a tile coordinate truncates toward zero. A non-negative value lies in [r, r+1); a negative value lies in (r−1, r] with r ≤ 0. |
| Characters.AABB | Characters/Character.cs:48-74 | The box is horizontally centred on Position, sprite-width wide. Its height is always HEAD_TO_LEG_PIXELS·SPRITE_SCALE (positive), whatever the sprite height. Its bottom is half the scaled sprite height below Position, and its top is the sprite top pushed down by the hair height. |
| Characters.AABBDependsOnlyOnPositionAndSprite | Characters/Character.cs:66-74 | Two characters with the same Position and the same sprite size have the same box. |
| Characters.WithPosition | Characters/Character.cs:129-146 | The Position setter and getter round-trip: after setting v, Position reads v. Only the stored sprite corner changes. |
| Characters.NewCharacter | Characters/Character.cs:33-53 | A new character is at rest and airborne. It can jump, it is alive, it shows the Idle action, and its Position is the sprite centre. |
| Characters.SetCurrentAction | Characters/Character.cs:76-82 | The action becomes the requested one and nothing else changes. Requesting the current action changes nothing. |
| Characters.UpdateAnimation | Characters/Character.cs:94-127 | Only the action changes. When grounded or moving vertically, left input wins and shows MoveLeft, and right alone shows MoveRight. With no input the action is Idle on the ground, Fall when falling and Jump when rising. An airborne character with zero vertical velocity is untouched. |
| Solids.SetPos | GameObjects/Base/SolidObject.cs:23-27 | The Position setter of either solid kind: the new point reads back, and every other field is kept. |
| Solids.SetVel | GameObjects/Base/SolidObject.cs:17-21 | The Velocity setter changes only the velocity; position and grounded flag are kept. |
| Solids.SetGrounded | GameObjects/Base/SolidObject.cs:11-15 | The IsGrounded setter changes only the flag; position and velocity are kept. |
| CollisionDetector.GetTileBounds | CollisionSystem/CollisionDetector.cs:119-127 | Tile (x, y) covers [x·TILE_SIZE, (x+1)·TILE_SIZE] horizontally and [y·TILE_SIZE, (y+1)·TILE_SIZE] vertically. |
| CollisionDetector.HasCollision | CollisionSystem/CollisionDetector.cs:13-17 | Two objects collide iff their boxes intersect, whichever object is named first. |
| CollisionDetector.HasLevelCollision | CollisionSystem/CollisionDetector.cs:20-24 | An object collides with the level iff some in-map solid tile overlaps its box. |
| CollisionDetector.ScanRow | CollisionSystem/CollisionDetector.cs:85-96 | The inner loop over columns x..right of one row reports a hit iff one of those columns holds an in-map solid tile that overlaps the box. |
| CollisionDetector.ScanRows | CollisionSystem/CollisionDetector.cs:83-98 | The nested loops report a hit iff some tile in the scanned index rectangle is in the map, solid, and overlaps the box. |
| CollisionDetector.HitInScanRange | CollisionSystem/CollisionDetector.cs:78-81 | Every in-map solid tile the box overlaps lies inside the truncated index rectangle the loops visit, so the scan misses no tile. |
| CollisionDetector.CheckTileCollision | CollisionSystem/CollisionDetector.cs:76-99 | The tile query is true iff some tile inside the map with a GID in 1..7 intersects the box (both directions). |
| CollisionDetector.OutsideIsNotSolid | CollisionSystem/CollisionDetector.cs:101-117 | A tile outside the map, or whose row-major index runs past the data, never counts as a hit. |
| CollisionDetector.GetCollisionInfo | CollisionSystem/CollisionDetector.cs:26-74 | Disjoint boxes give no collision and side None. Overlapping boxes give a collision whose side is not None. The depth is positive and equals the smallest of the four directed overlaps. Ties resolve in the order Top, Bottom, Left, Right. The normal is the unit axis vector of the side. |
| JumpSystem.HandleJump | Physics/JumpSystem.cs:12-23 | Nothing changes unless the character is grounded, allowed to jump and pressing jump. When all three hold, vy becomes JUMP_FORCE and the character is airborne and cannot jump. vx and the position are never touched. |
| JumpSystem.JumpFiresAtMostOnce | Physics/JumpSystem.cs:12-23 | After a jump fires, a second call without a landing in between fires nothing and changes nothing. |
| GravitySystem.ApplyGravity | Physics/GravitySystem.cs:12-30 | A grounded object is untouched. An airborne one gets vy := min(vy + GRAVITY_STRENGTH, TERMINAL_VELOCITY), so it never falls faster than terminal velocity. vx, position and grounded flag never change. |
| MovementSystem.AxisLength | Physics/PhysicsSystem.cs:43-44 | For the single-axis moves the integrator makes, the absolute value of the displacement is the length that `Math.Sqrt` computes. |
| MovementSystem.StepFraction | Physics/MovementSystem.cs:66-76 | The probe fraction at step k is 0 at the first step, and lies in [0, 1) while the loop condition holds. |
| MovementSystem.March | Physics/MovementSystem.cs:68-85 | The march returns a fraction in [0, 1). Entered at step k with every earlier probe free and `safe` the fraction of step k−1 (or at step 0 with a free start), it returns the fraction of the last collision-free probe: a step m inside the displacement, with every probe up to m free and probe m+1 either colliding or past the displacement. When the start collides it returns the initial safe value. |
| MovementSystem.FindMaxSafeDistance | Physics/MovementSystem.cs:58-88 | The search always ends, with a fraction in [0, 1). It is 0 for a zero displacement or a colliding start. Otherwise it is the fraction k·0.1/dist of the last collision-free probe before the first colliding one (or before the march passes the displacement), so every probe up to it is free and the next one is not reachable without a collision. |
| MovementSystem.HandleCollisionResponse | Physics/MovementSystem.cs:90-110 | Position and box are kept. vx is zeroed iff dx ≠ 0 and vy iff dy ≠ 0. A downward block (dy > 0) grounds the object and, for a character only, re-enables jumping. Nothing else changes. |
| MovementSystem.Target | Physics/MovementSystem.cs:24-30 | The object is placed at its start plus (dx, dy). |
| MovementSystem.BlockedMove | Physics/MovementSystem.cs:32-42 | In the blocked branch the object ends at start + safe·(dx, dy), with the blocked axes' velocity zeroed and the grounding rule applied. A collision-free start gives a collision-free end. Type, death and action are kept. |
| MovementSystem.MoveWithCollisionCheck | Physics/MovementSystem.cs:20-43 | A zero displacement changes nothing. A free target is reached exactly, with velocity and grounded flag untouched. A blocked move stops at the safe fraction and stops the blocked axes. From a collision-free start the end is always collision-free. |
| MovementSystem.HandleJump | Physics/MovementSystem.cs:45-56 | Has the same effect as JumpSystem.HandleJump on every character and input. |
| PhysicsSystem.Friction | Physics/PhysicsSystem.cs:59-68 | Friction never increases the speed and never reverses the direction. It leaves either 0 or a speed of at least the 0.1 cutoff. |
| PhysicsSystem.HandleMovementInput | Physics/PhysicsSystem.cs:47-69 | Left input wins and sets vx = −MOVE_SPEED. Right alone sets +MOVE_SPEED. No input applies friction to vx. vy and all other fields are untouched. |
| PhysicsSystem.FrictionNeverAccelerates | Physics/PhysicsSystem.cs:59-68 | Any number of ticks without horizontal input never makes the character faster than it was. |
| PhysicsSystem.Integrate | Physics/PhysicsSystem.cs:28-40 | The jump is judged on the grounded flag of the previous tick. Grounded is then cleared, so gravity always applies: vy = min((JUMP_FORCE if the jump fired, else vy) + GRAVITY_STRENGTH, TERMINAL_VELOCITY). vx follows the input rule, and canJump is lost exactly when the jump fires. |
| PhysicsSystem.UpdateCharacter | Physics/PhysicsSystem.cs:26-45 | After a tick, vy ≤ TERMINAL_VELOCITY. The character is grounded iff it was falling and the Y sweep (run after the X sweep) was blocked; then it can jump and vy = 0. A collision-free character stays collision-free. Type, death and action are kept. |
| Physics.ApplyGravity | Physics/Physics.cs:8-26 | The same gravity rule as GravitySystem.ApplyGravity: a grounded character is unchanged, an airborne one gets vy := min(vy + GRAVITY_STRENGTH, TERMINAL_VELOCITY), and only the velocity changes. |
| Physics.Jump | Physics/Physics.cs:28-39 | Has the same effect as JumpSystem.HandleJump. |
| Physics.CheckCollision | Physics/Physics.cs:41-44 | The character's box and the rectangle intersect, in either order. |
| Physics.HandleTileCollision | Physics/Physics.cs:46-90 | A tile the box does not overlap changes nothing. In the Top branch (overlapTop is smallest and falling) the box bottom lands on the tile top, vy = 0, and the character is grounded and can jump. The Bottom branch is reached only when Top is not taken: the box top meets the tile bottom, vy = 0, and the flags are kept. Only position, velocity, grounded and canJump can change. |
| Physics.TileWallBranches | Physics/Physics.cs:91-117 | The Left branch (overlapLeft is smallest, vx < 0) puts the box's right edge on the tile's left face. The Right branch (vx > 0) puts the box's left edge on the tile's right face. Both keep y, zero vx and keep the flags. When no branch is taken the character is unchanged. |
| Physics.TileResponseMatchesResolver | Physics/Physics.cs:46-117 | When the smallest overlap is unique, the tile response equals CollisionResolver.ResolveCollision against an object with the same box, including the same horizontal gates. |
| Physics.TileBlocksIsTileHit | Physics/Physics.cs:226-245 | The inline tile test of this class (in the map, index within the data, GID 1..7, CheckCollision with the tile square) is exactly the detector's in-map solid overlapping tile. |
| Physics.ScanRow | Physics/Physics.cs:224-248 | The column loop of one row reports a hit iff one of columns x..right holds an in-map solid tile overlapping the character's box. |
| Physics.ScanRows | Physics/Physics.cs:222-250 | The nested loops report a hit iff some tile of the scanned index rectangle is in the map, solid and overlapping the box. |
| Physics.HasAnyCollision | Physics/Physics.cs:213-252 | True iff some in-map tile with GID 1..7 intersects the character's box (both directions), and so the same answer as the detector's tile query on that box. |
| Physics.March | Physics/Physics.cs:266-281 | The march returns a fraction in [0, 1). A collision-free starting fraction yields a collision-free result. Entered with every earlier probe free (or at step 0 with a free start), it returns the fraction of the last collision-free probe before the first colliding one or the end of the displacement. |
| Physics.ProbeAgrees | Physics/Physics.cs:269-274 | A probe of this march tests the same box, on the same character, as the corresponding probe of MovementSystem's march. |
| Physics.FreeThroughAgrees | Physics/Physics.cs:266-281 | "Every probe up to step k is free" means the same for this class's march as for MovementSystem's on the character viewed as a solid. |
| Physics.MarchAgrees | Physics/Physics.cs:254-284 | This march returns exactly the fraction MovementSystem's march returns, from every step and safe value. |
| Physics.FindMaxSafeDistance | Physics/Physics.cs:254-284 | Returns a fraction in [0, 1), equal to MovementSystem.FindMaxSafeDistance. It is 0 for a zero displacement or a colliding start, and otherwise the fraction of the last collision-free probe before the first colliding one. |
| Physics.MoveWithCollisionCheck | Physics/Physics.cs:170-211 | Gives the same result as MovementSystem.MoveWithCollisionCheck for the character. A zero displacement changes nothing. A collision-free start gives a collision-free end. |
| Physics.UpdateCharacter | Physics/Physics.cs:119-168 | The same tick as PhysicsSystem.UpdateCharacter, so vy never exceeds TERMINAL_VELOCITY after it. |
| CharacterExtensions.ApplyJumpForce | CharacterExtensions.cs:12-15 | Only vy changes, to the given force. |
| CharacterExtensions.SetGroundedState | CharacterExtensions.cs:17-29 | The box bottom lands on the ground's top with x kept. vy = 0 and vx is kept. The character is grounded and can jump; nothing else changes. |
| CharacterExtensions.HandleCeilingCollision | CharacterExtensions.cs:31-40 | The box top meets the ceiling's bottom with x kept. vy = 0; vx, grounded and canJump are untouched. |
| CharacterExtensions.HandleWallCollision | CharacterExtensions.cs:42-57 | For isLeftWall the box's right edge meets the wall's left face; otherwise its left edge meets the wall's right face. y is kept, vx = 0 and vy is kept. |
| CharacterExtensions.SnapsSeparate | CharacterExtensions.cs:17-57 | After any of the three snaps, the character's box no longer overlaps the obstacle. |
| CharacterExtensions.DepthIgnored | CharacterExtensions.cs:17-57 | None of the snaps depends on the penetration depth it is given. |
| CollisionResolver.ResolveCollision | CollisionSystem/CollisionResolver.cs:19-71 | Disjoint boxes: nothing changes. Top with vy > 0 lands the character. Bottom with vy < 0 meets the ceiling. Left acts only when vx < 0, and Right only when vx > 0, each snapping to the face. With a side's gate closed, nothing changes. Top and Bottom never change x or vx; Left and Right never change y or vy. |
| CollisionResolver.ResolveSeparatesOrKeeps | CollisionSystem/CollisionResolver.cs:19-71 | A response either leaves the character exactly as it was or leaves its box clear of the obstacle. |
| CollisionResolver.WalkerBox | Characters/Character.cs:66-74 | A character with a 20×280 sprite at the origin has the box [−1, 1] × [−14, 14]. |
| CollisionResolver.BlockBox | Characters/Character.cs:66-74 | The same sprite shifted right by 1.9 has the box [0.9, 2.9] × [−14, 14]. |
| CollisionResolver.ThinOverlapIsLeft | CollisionSystem/CollisionDetector.cs:36-65 | A horizontal overlap of 0.1 against a vertical overlap of 28 is classified as the Left side. |
| CollisionResolver.WalkerMeetsBlockOnLeft | CollisionSystem/CollisionDetector.cs:26-74 | The walker and the block intersect, and the walker meets the block's Left side. |
| CollisionResolver.WalkingIntoWallIsNotResolved | CollisionSystem/CollisionResolver.cs:48-55 | With the gates as written, a character walking right (vx > 0) into an obstacle on its right is classified Left, is not moved, and stays overlapping the obstacle. |
| CollisionResolver.ResolveCollisionWithLevel | CollisionSystem/CollisionResolver.cs:73-80 | Never changes the object: it only delegates a (0, 0) move. |
| Platforms.DirectionVector | GameObjects/Platforms/Platform.cs:32-38 | Each direction's step is axis-aligned, with magnitude MOVE_SPEED. |
| Platforms.NewPlatform | GameObjects/Platforms/Platform.cs:21-41 | A new platform's top-left corner is at (objX, objY − objHeight). It is switched off, has not moved, and keeps its type, activator, direction and tile count. |
| Platforms.Activate | GameObjects/Platforms/Platform.cs:75-82 | Below the travel limit tilesToMove·TILE_SIZE, the platform advances by one direction step and one MOVE_SPEED of travel; at the limit it is unchanged. |
| Platforms.Deactivate | GameObjects/Platforms/Platform.cs:84-91 | Away from the origin, the platform steps back by one direction step and one MOVE_SPEED of travel; at the origin it is unchanged. |
| Platforms.Update | GameObjects/Platforms/Platform.cs:48-58 | Update never changes the activation flag, the type or the activator. Its step is stated by Platforms.UpdateKeepsTrack. |
| Platforms.GetAABB | GameObjects/Platforms/Platform.cs:65-68 | The box's top-left corner is the position, and its size is the bitmap's size. |
| Platforms.AtStepBounds | GameObjects/Platforms/Platform.cs:75-91 | On its track the travelled distance stays within [0, tilesToMove·TILE_SIZE]. It is 0 for a negative tile count. |
| Platforms.ActivateStep | GameObjects/Platforms/Platform.cs:75-82 | From n net steps, Activate reaches step n+1 exactly when n is below the limit, since TILE_SIZE is 80 steps; otherwise it stays at n. |
| Platforms.DeactivateStep | GameObjects/Platforms/Platform.cs:84-91 | From n net steps, Deactivate reaches step n−1 when n > 0, and stays at 0 otherwise. |
| Platforms.UpdateKeepsTrack | GameObjects/Platforms/Platform.cs:48-58 | Update steps out when activated and back when not. It keeps position = origin + n·direction and travel = n·MOVE_SPEED, within the limit. |
| Platforms.ActivateThenDeactivate | GameObjects/Platforms/Platform.cs:75-91 | Below the limit, one step out and one step back restore the platform exactly. |
| Timers.NewTimer | GameObjects/Levers/Lever.cs:23 | A new timer is not running and reads 0. |
| Timers.Start | GameObjects/Levers/Lever.cs:61 | Started, a timer runs from 0. |
| Timers.Reset | GameObjects/Levers/Lever.cs:67 | Reset brings the count to 0 and keeps a running timer running. |
| Timers.Stop | GameObjects/Levers/Lever.cs:89 | Stopped, a timer does not run and reads 0. |
| Timers.Advance | GameObjects/Levers/Lever.cs:65 | Only a running timer counts the elapsed ticks; a stopped one is unchanged. |
| Levers.NewLever | GameObjects/Levers/Lever.cs:11-26 | The box sits on the map object's bottom edge. The lever is off and its timer is not started. |
| Levers.GetAABB | GameObjects/Levers/Lever.cs:72-80 | The box's top-left corner is the position, and its size is the sprite size. |
| Levers.IsCharacterInRange | GameObjects/Levers/Lever.cs:44-49 | The lever's box and the character's box intersect, in either order. |
| Levers.CanInteract | GameObjects/Levers/Lever.cs:51-54 | Any character may use a lever. |
| Levers.ToggleLever | GameObjects/Levers/Lever.cs:98-110 | Toggling flips the activation flag and nothing else. |
| Levers.ToggleTwiceIsIdentity | GameObjects/Levers/Lever.cs:98-110 | Two toggles give back the lever. |
| Levers.Interact | GameObjects/Levers/Lever.cs:56-70 | With an idle timer, the timer starts from 0 and the lever toggles. With a running timer past 10000 ticks, the timer goes back to 0 and keeps running, and the lever toggles. Otherwise nothing changes. The lever's type and box never change. |
| Levers.ResetTimer | GameObjects/Levers/Lever.cs:87-91 | The timer is stopped and reads 0; nothing else changes. |
| Levers.ResetThenInteractToggles | GameObjects/Levers/Lever.cs:56-91 | After ResetTimer, the next interaction toggles the lever, however recently it last toggled. |
| Levers.DebounceWindow | GameObjects/Levers/Lever.cs:56-70 | After a toggle, interactions within 10000 ticks change nothing, and the first one after that toggles the lever back. |
| Buttons.NewButton | GameObjects/Button/Button.cs:10-22 | The box sits on the map object's bottom edge, and the button is off. |
| Buttons.GetAABB | GameObjects/Button/Button.cs:56-64 | The box's top-left corner is the position, and its size is the sprite size. |
| Buttons.IsCharacterInRange | GameObjects/Button/Button.cs:32-37 | The button's box and the character's box intersect, in either order. |
| Buttons.CanInteract | GameObjects/Button/Button.cs:39-42 | Any character may press a button. |
| Buttons.Interact | GameObjects/Button/Button.cs:44-54 | The button is on afterwards iff this character's box overlaps it, whatever its state before. Nothing else changes. |
| Buttons.InteractIdempotent | GameObjects/Button/Button.cs:44-54 | Interacting twice with the same character is the same as once. |
| ExitDoors.NewExitDoor | GameObjects/Doors/ExitDoor.cs:19-36 | The box is the sprite scaled by 0.8, standing on the map object's y with its left edge at its x. The door starts closed. |
| ExitDoors.GetAABB | GameObjects/Doors/ExitDoor.cs:119-127 | The box's top-left corner is the position, and its size is the scaled size. |
| ExitDoors.IsCharacterInRange | GameObjects/Doors/ExitDoor.cs:78-88 | The door's box and the character's box intersect, in either order. |
| ExitDoors.CanInteract | GameObjects/Doors/ExitDoor.cs:78-93 | True iff the character has the door's type and the two boxes overlap. |
| ExitDoors.Interact | GameObjects/Doors/ExitDoor.cs:95-117 | A character of another type changes nothing. The door's own character opens a closed door while in range and closes an open door once out of range. In every other case the door is unchanged. Only the two flags ever change. |
| ExitDoors.InteractKeepsConsistent | GameObjects/Doors/ExitDoor.cs:95-117 | The door's two flags stay equal. Afterwards, for the door's own character, the door is open iff that character stands in it. |
| Hazards.NewHazard | GameObjects/Hazards/Hazards.cs:15-25 | The sprite's box stands on the given point: its bottom is at the point's y and its left edge at the point's x. |
| Hazards.GetAABB | GameObjects/Hazards/Hazards.cs:68-76 | The box's top-left corner is the position, and its size is the sprite size. |
| Hazards.IsCharacterInRange | GameObjects/Hazards/Hazards.cs:56-66 | True iff the pool's box and the character's box intersect, in either order. |
| Hazards.SurvivesIffCanInteract | GameObjects/Hazards/Hazards.cs:40-54 | A live character touching the pool stays alive iff CanInteract holds, that is iff it shares the pool's type. |
| Hazards.Interact | GameObjects/Hazards/Hazards.cs:40-54 | The character is dead afterwards iff it was already dead, or it touches a pool of another type. Death is never cleared, and nothing else changes. |
| Hazards.MudKillsBothPlayers | GameObjects/Hazards/MudHazard.cs:12 | A mud pool kills FireBoy or WaterGirl when they touch it. |
| Diamonds.NewDiamond | GameObjects/Collectibles/Diamond.cs:10-21 | The sprite's box stands on the given point, and the type and special flag are kept. |
| Diamonds.GetAABB | GameObjects/Collectibles/Diamond.cs:67-75 | The box's top-left corner is the position, and its size is the sprite size. |
| Diamonds.IsCharacterInRange | GameObjects/Collectibles/Diamond.cs:54-59 | The diamond's box and the character's box intersect, in either order. |
| Diamonds.CanInteract | GameObjects/Collectibles/Diamond.cs:48-52 | A special (mud) diamond can be collected by anyone; any other only by a character of its own type. |
| Diamonds.Interact | GameObjects/Collectibles/Diamond.cs:43-46 | Interacting has no effect on the diamond. |
| CollisionManager.CheckHazardCollisions | CollisionSystem/CollisionManager.cs:17-30 | The game-over flag ends true iff it was already true or some hazard of another type touches the character. It is never cleared. |
| CollisionManager.StepDoor | CollisionSystem/CollisionManager.cs:37-64 | The colour's half of an iteration never touches a door of the other colour, and never changes a door's type. |
| CollisionManager.StepFlag | CollisionSystem/CollisionManager.cs:37-64 | A door of the other colour never changes the colour's exit flag. |
| CollisionManager.CheckExitDoorInteractions | CollisionSystem/CollisionManager.cs:32-66 | The pass keeps the number of doors and each door's type. What it does to doors and flags is stated by CollisionManager.DoorPassSplitsByColour and CollisionManager.ReachIsLastRelevantDoor. |
| CollisionManager.DoorPassSplitsByColour | CollisionSystem/CollisionManager.cs:32-66 | The fire and water halves do not interfere. Each exit flag equals the flag computed with only its own colour, and each door ends as the two single-colour steps leave it. |
| CollisionManager.ReachIsLastRelevantDoor | CollisionSystem/CollisionManager.cs:37-64 | For doors whose two flags agree, a colour's exit flag ends true iff the character stands in the last door of that colour the loop acted on (in range, or open). With no such door the flag is unchanged. |
| CollisionManager.CheckDiamondInteraction | CollisionSystem/CollisionManager.cs:68-84 | The result holds exactly the diamonds the character can collect now: in range and allowed. It is a sub-multiset of the input, whose list is not modified. |
| CollisionManager.CollectedInOrder | CollisionSystem/CollisionManager.cs:68-84 | The collected list is the input's subsequence at strictly increasing positions, and those positions are exactly the ones holding a collectible diamond: the foreach order is kept. |
| CollisionManager.CheckPlatformInteractions | CollisionSystem/CollisionManager.cs:86-93 | Resolving the character against each platform in turn changes only its position, velocity, grounded and jump flags. |
| CollisionManager.PlatformPassKeepsFreeCharacter | CollisionSystem/CollisionManager.cs:86-93 | A character that touches no platform comes out unchanged. |
| CollisionManager.LeverStep | CollisionSystem/CollisionManager.cs:99-107 | A character in range interacts with the lever. Out of range, a timer past 10000 ticks is stopped and the state kept. Otherwise the lever is unchanged. |
| CollisionManager.MirrorLever | CollisionSystem/CollisionManager.cs:109-122 | Every lever-driven platform of the lever's type takes the lever's state; every other platform is untouched. |
| CollisionManager.CheckLeverInteractions | CollisionSystem/CollisionManager.cs:95-124 | Every lever is stepped, and platforms change only their activation. Only lever-driven platforms can change at all. |
| CollisionManager.LastLeverIndex | CollisionSystem/CollisionManager.cs:95-124 | −1 iff no lever has the type; otherwise the index of the last lever that has it. |
| CollisionManager.LastLeverState | CollisionSystem/CollisionManager.cs:95-124 | None iff no lever has the type; otherwise the state of the last lever of the type. |
| CollisionManager.LeverPassMirrorsLastLever | CollisionSystem/CollisionManager.cs:95-124 | After the pass, every lever-driven platform shows the final state of the last lever of its type. A platform with no lever of its type, and a button-driven platform, is untouched. |
| CollisionManager.AnyCharacterInRange | CollisionSystem/CollisionManager.cs:130-139 | True iff some character's box overlaps the button. |
| CollisionManager.AnyButtonActivated | CollisionSystem/CollisionManager.cs:157-169 | True iff some button of the type is pressed. |
| CollisionManager.CheckButtonInteractions | CollisionSystem/CollisionManager.cs:126-174 | Each button is pressed iff some character is on it. Each button-driven platform is active iff some button of its type has a character on it. No other field and no other platform changes. |
| PhysicsCollisionManager.RemoveEach | Physics/CollisionManager.cs:75-79 | Removing a list of diamonds one at a time never makes the level's list longer. |
| PhysicsCollisionManager.RemoveFirstDistinct | Physics/CollisionManager.cs:75-79 | On a list without duplicates, one List.Remove takes out exactly that element, and the list stays duplicate-free. |
| PhysicsCollisionManager.RemoveEachDistinct | Physics/CollisionManager.cs:75-79 | On a list without duplicates, removing each entry of t leaves exactly the elements not in t. |
| PhysicsCollisionManager.Uncollected | Physics/CollisionManager.cs:60-80 | The reference for the in-place pass: exactly the diamonds this character cannot collect, in list order. |
| PhysicsCollisionManager.RemovalLeavesUncollected | Physics/CollisionManager.cs:60-80 | Removing every collected diamond, one first occurrence at a time, leaves exactly the uncollectible ones in their original order, even when equal diamonds repeat. |
| PhysicsCollisionManager.CheckDiamondInteraction | Physics/CollisionManager.cs:60-80 | After the in-place pass, the level's list is exactly the diamonds the character could not collect, in order. Collected plus kept is the original count. |
| PhysicsCollisionManager.CollectedPlusUncollected | Physics/CollisionManager.cs:60-80 | Counted with duplicates, the collected diamonds and the kept ones together make up the input exactly (multiset union), so their lengths add up to the input's. |
| PhysicsCollisionManager.DiamondPassIdempotent | Physics/CollisionManager.cs:60-80 | A second pass in the same position collects nothing more. |
| Levels.NewLevel | Level/Level.cs:58-62 | A new level is not over, not completed, and no exit has been reached. |
| Levels.Tick | Level/Level.cs:278-282 | One character's tick keeps its type and death, and leaves vy ≤ TERMINAL_VELOCITY. |
| Levels.Integrate | Level/Level.cs:278-282 | Every character is ticked with its own input, keeping its type and death, and ends with vy ≤ TERMINAL_VELOCITY. |
| Levels.HazardPass | Level/Level.cs:284-288 | Game over ends true iff it already was, or some character touches a hazard of another type. |
| Levels.DiamondPass | Level/Level.cs:297-301 | A diamond is kept iff no character can collect it. |
| Levels.LeverPass | Level/Level.cs:309-313 | Only the activation of lever-driven platforms can change; button-driven platforms are untouched. |
| Levels.HazardStage | Level/Level.cs:284-288 | Only the game-over flag changes, and it becomes true iff it was true or some character touches a fatal pool. |
| Levels.DoorStage | Level/Level.cs:290-295 | Each exit flag is its colour's door reference for that colour's character. The level is completed afterwards iff it already was or both exits are reached; completion is a latch. |
| Levels.DiamondStage | Level/Level.cs:297-301 | Only the diamond list changes, keeping exactly the diamonds no character can collect. |
| Levels.LeverStage | Level/Level.cs:309-313 | Levers step and platforms change at most their activation. |
| Levels.ButtonStage | Level/Level.cs:315-316 | Each button is pressed iff some character is on it; platforms change at most their activation. |
| Levels.Interactions | Level/Level.cs:284-321 | The stages run in the order hazards, exit doors, diamonds, levers, buttons, with all their guarantees. Characters and hazards are unchanged. |
| Levels.Update | Level/Level.cs:276-321 | Every character is integrated before any interaction runs. The interactions see only the integrated characters. Completion and game over are never cleared. |
| Levels.UpdateNeverMovesPlatforms | Level/Level.cs:276-321 | An update never moves a platform or changes its travel; only the draw pass does. |
| Levels.StepPlatforms | Level/Level.cs:235-239 | Every platform is updated exactly once, in place. |
| Levels.CalculateScore | Level/Level.cs:323-344 | Once the game is over the score is 0. Otherwise it is 3, minus one for running over time and one for diamonds left, so it lies in [1, 3]. It is 3 exactly when on time with every diamond taken. |
| LevelLogic.TimeLimit | Level/LevelLogic.cs:29-34 | Only "Easy", "Medium" and "Hard" have a limit, which lies between 30 and 40 seconds. |
| LevelLogic.HarderNeverScoresMore | Level/LevelLogic.cs:29-34 | For the same elapsed time and diamonds left, the score on Hard is at most that on Medium, which is at most that on Easy. |
| LevelLogic.SlowerNeverScoresMore | Level/LevelLogic.cs:72-89 | On a known difficulty, more elapsed time or more diamonds left never gives a higher score. |
| LevelLogic.CalculateScore | Level/LevelLogic.cs:72-89 | A game that is over scores 0, before any lookup. Otherwise an unknown difficulty fails. A known one scores as Level.CalculateScore does with that difficulty's limit, which lies in [1, 3]. |
| LevelLogic.HazardInteract | Level/LevelLogic.cs:107-108 | A character is dead after meeting every hazard iff it was dead or some pool of another type touches it. Only death changes. |
| LevelLogic.KillAll | Level/LevelLogic.cs:107-108 | Every character meets every hazard. |
| LevelLogic.CollectAll | Level/LevelLogic.cs:118-119 | The collected list holds exactly the diamonds that some character can collect. |
| LevelLogic.ResolveAll | Level/LevelLogic.cs:125-126 | Each character is resolved against the platforms; only its position, velocity and two flags can change. |
| LevelLogic.DiamondStep | Level/LevelLogic.cs:118-123 | On a duplicate-free list, what is left is exactly the diamonds no character can collect. Nothing else changes. |
| LevelLogic.ContactStep | Level/LevelLogic.cs:125-143 | Platforms, levers, buttons and then the exit doors. Buttons follow the resolved characters, exit flags follow the door reference, platforms change at most their activation, and diamonds, hazards and both latches are untouched. |
| LevelLogic.AfterHazards | Level/LevelLogic.cs:118-143 | Everything after the survivors' check, with the guarantees of the diamond step and the contact step together. |
| LevelLogic.CheckCollision | Level/LevelLogic.cs:103-144 | If a hazard kills anyone the game is over and nothing else is checked. Otherwise the rest of the interactions run on the survivors. Game over afterwards iff it was, or some character is dead. |
| LevelLogic.CheckCollisionKills | Level/LevelLogic.cs:107-116 | After CheckCollision a character is dead iff it was, or it touches a pool of another type. |
| LevelLogic.CheckCollisionKeepsPlatforms | Level/LevelLogic.cs:103-144 | CheckCollision never moves a platform; at most its activated flag changes. |
| LevelLogic.CheckLevelCompletion | Level/LevelLogic.cs:146-152 | Completed afterwards iff it already was, the game is over, or both exits are reached. Only the completion flag changes. |
| LevelLogic.CollideAndComplete | Level/LevelLogic.cs:68-69 | A game that is over is always completed. Completion and game over are never cleared. |
| LevelLogic.UpdateLevel | Level/LevelLogic.cs:60-70 | The level timer is running afterwards, and a running timer is not restarted. Platforms step first, then the characters integrate, then collisions and completion run. |
| LevelLogic.UpdateLevelStepsPlatformsOnce | Level/LevelLogic.cs:60-70 | Each tick moves every platform by exactly one Platform.Update. |
| LevelLogic.UpdateLevelKeepsLatches | Level/LevelLogic.cs:60-70 | Once a level is completed or over, further ticks keep it so. |
| LevelManager.LookupMeans | Main/LevelManager.cs:31-34 | A lookup fails exactly when no entry has the name. When it succeeds, its score belongs to an entry with that name. |
| LevelManager.LookupValid | Main/LevelManager.cs:31-34 | In a table with unique names, each entry's name looks up its own score. |
| LevelManager.Put | Main/LevelManager.cs:36-43 | After a store, the name looks up the new score and every other name is unaffected. A new name is appended at the end; a known name keeps the table's size. |
| LevelManager.PutKeepsValid | Main/LevelManager.cs:36-43 | Storing keeps names unique. |
| LevelManager.AddLevel | Main/LevelManager.cs:24-29 | The level is appended. A known name keeps its score, and a new one gets 0. Other names are unaffected, and names stay unique. |
| LevelManager.GetHighestScore | Main/LevelManager.cs:31-34 | Returns the stored score, or 0 for an unknown level. |
| LevelManager.SetHighestScore | Main/LevelManager.cs:36-43 | An unknown level or a higher score is stored and the file is rewritten from the new table. Otherwise nothing changes and nothing is written. Other names and the level list are unaffected. |
| LevelManager.StoredScoreNeverDecreases | Main/LevelManager.cs:36-43 | A stored score never goes down. |
| LevelManager.DigitsRoundTrip | Main/LevelManager.cs:68 | The decimal digits of n read back as n. |
| LevelManager.IntToString | Main/LevelManager.cs:68 | A score's text is a minus sign for a negative score, then at least one decimal digit. |
| LevelManager.FormatLine | Main/LevelManager.cs:62-71 | A saved line is the name, one space, then a score text containing no space. |
| LevelManager.ParseTrimmed | Main/LevelManager.cs:53-57 | An accepted number fits in 32 bits. |
| LevelManager.TryParseInt | Main/LevelManager.cs:53-57 | int.TryParse accepts only values that fit in 32 bits. |
| LevelManager.ParseUnsigned | Main/LevelManager.cs:53-57 | A digit string whose value fits reads back as that value. |
| LevelManager.ParseNegative | Main/LevelManager.cs:53-57 | A minus sign before a digit string whose value fits reads back as the negated value. |
| LevelManager.ParseIntToString | Main/LevelManager.cs:53-68 | Every 32-bit score reads back from the text it is saved as. |
| LevelManager.Split | Main/LevelManager.cs:53 | Splitting always yields at least one part. |
| LevelManager.SplitNoSep | Main/LevelManager.cs:53 | Text without the separator splits into itself alone. |
| LevelManager.SplitAtFirst | Main/LevelManager.cs:53 | Text a + separator + b, where a has no separator, splits into a followed by the parts of b. |
| LevelManager.SaveScores | Main/LevelManager.cs:62-71 | One "name score" line per entry, in table order. |
| LevelManager.ParseLine | Main/LevelManager.cs:53-57 | A line is accepted iff it splits on spaces into exactly two parts and the second parses as an integer. It then gives that name and score. |
| LevelManager.ParseFormatLine | Main/LevelManager.cs:53-68 | A saved line parses back to its entry, for a name without spaces and a 32-bit score. |
| LevelManager.LoadLines | Main/LevelManager.cs:51-58 | Loading lines into a table with unique names keeps the names unique. |
| LevelManager.LoadScores | Main/LevelManager.cs:45-60 | A missing file changes nothing. Otherwise every line is loaded in order. The level list is kept, and so are unique names. |
| LevelManager.LaterLinesOverride | Main/LevelManager.cs:51-58 | After loading, a name has the score of its last accepted line. A name on no accepted line keeps its previous score. |
| LevelManager.SaveThenLoad | Main/LevelManager.cs:45-71 | Saving a table of space-free names and 32-bit scores and loading the file into an empty table gives the same table back. |
| LevelManager.GetLevelStatus | Main/LevelManager.cs:73-80 | The status is "Incomplete" iff the stored score is 0 or unknown. Otherwise it is the fixed prefix followed by the score's text. |
| LevelManager.StatusReadsBack | Main/LevelManager.cs:73-80 | The score shown in a status line parses back to the stored score. |
| LevelManager.PositiveScoreCompletes | Main/LevelManager.cs:36-80 | Once a positive score has been offered for a level, its status is no longer "Incomplete". |
| ObjectManager.NewManager | Level/ObjectManager.cs:13-16 | A new manager holds nothing. |
| ObjectManager.Add | Level/ObjectManager.cs:20-26 | A null object is ignored. Any other object is appended at the end, and the count grows by one. GameObjectManager/ObjectManager.cs has the same code. |
| ObjectManager.RemoveFirst | Level/ObjectManager.cs:28-31 | List.Remove drops the first occurrence, keeping the order of the rest. An absent element leaves the list unchanged. |
| ObjectManager.RemoveFirstMultiset | Level/ObjectManager.cs:28-31 | Removal takes exactly one copy of the element out of the bag of elements, when there is one. |
| ObjectManager.Remove | Level/ObjectManager.cs:28-31 | Returns true iff the object was present. It then drops the first occurrence and the count falls by one; otherwise nothing changes. The second manager has the same code. |
| ObjectManager.Clear | Level/ObjectManager.cs:33-36 | Nothing is left, in either manager. |
| ObjectManager.AddThenRemove | Level/ObjectManager.cs:20-31 | Removing an object just added (and not there before) gives back the manager. |
| StartPos.NewStartPos | Level/StartPos.cs:10-32 | The Type and Position getters return the constructor's arguments. |
| StartPos.SetStartingPoint | Level/StartPos.cs:16-22 | A character of the marker's type is placed on the marker's point, and any other character is untouched. Only the position ever changes. |
| StartPos.SetStartingPointIdempotent | Level/StartPos.cs:16-22 | Placing a character twice from the same marker is the same as placing it once. |

## Left out

- Drawing, sprites, animation frames, UI, menus, game states and sound are left out. They do not affect the game rules.
- The Level constructor's map processing (object and tile layers from the map loader) and the level data loader are left out, as are the object factories. The model starts from the lists and the tile grid they produce.
- SplashKit's timer and rectangle functions are left out. The timer is reduced to started/ticks, with elapsed time supplied by the caller. Rectangle intersection is stated as strict overlap.
- Floating-point rounding is left out: arithmetic is exact over reals. This includes the accumulation `currentDistance += step` in the sweep, which the model writes as k·0.1, and the single-precision 0.1 friction cutoff.
- `Math.Sqrt` is left out. The caller supplies the length; `MovementSystem.AxisLength` shows that the single-axis moves of the integrator need only the absolute value.
- The platform pass of Physics/CollisionManager.cs:82-90 is left out: it calls resolution methods that are not in Physics/Physics.cs. In Level.Update that pass therefore changes nothing.
- CheckBoxInteractions is empty in both managers, and boxes have no behaviour, so both are left out.
- The list-taking overloads that LevelLogic calls on its collision manager are not part of this model. Each is taken to be the single-character pass run for every character in turn:
  - hazards call Hazard.Interact, which sets IsDead;
  - diamonds concatenate each character's collected list;
  - platforms resolve each character against each platform;
  - the door pass writes the level's flags.
- ClearLevelResource is empty, and is left out.
- ResetForNewLevel and InitializeGameObject only wire managers and timers, and are left out.
- The manager collection that builds the object managers from level data is left out.
- File existence and the reading and writing of the score file are inputs and outputs of LoadScores and SetHighestScore.
- int.TryParse is modelled with the invariant-culture integer style: optional surrounding white space and an optional sign. Culture-specific signs, thousands separators and embedded NUL characters are left out.
- Key bindings are left out: FireBoy's A, D and W keys and WaterGirl's arrow keys arrive as one `Characters.Input` per character.
- Object identity is left out: a diamond's `id` field stands for it, and equal records are the same object.
- An unknown difficulty makes the dictionary lookup throw. The model returns None instead (`LevelLogic.TimeLimit`, `LevelLogic.CalculateScore`).
- Physics.HandleTileCollision: its own contract states the no-collision case, the Top and Bottom branches, and the frame. The Left and Right branches and the fall-through are stated by Physics.TileWallBranches.
- Physics.March: it does not state the colliding-start case (it then returns the safe value it was given), which Physics.FindMaxSafeDistance states (0 when the start collides) through its equality with MovementSystem's search.
- CollisionManager.CheckDiamondInteraction: its own contract states membership and multiplicity only. The list order is stated by CollisionManager.CollectedInOrder.
- Platforms.Update: its contract states only what Update keeps. The step it takes is in Platforms.UpdateKeepsTrack.
- CollisionManager.CheckExitDoorInteractions: its contract states only sizes and types. The flags and doors are stated by CollisionManager.DoorPassSplitsByColour and CollisionManager.ReachIsLastRelevantDoor.
- LevelLogic.DiamondStep: the exact remainder is proved for a duplicate-free diamond list. Each diamond object is added once, so this always holds.
- LevelManager.SaveThenLoad and LevelManager.ParseFormatLine: names containing spaces, or scores outside 32 bits, do not round-trip through the file. The source does not guard against them either.
- ObjectManager.Count has no contract of its own: it is the length of the list, and the other members' contracts state counts through it.
