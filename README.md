# Asteroids game session, modelled in Dafny

This project models the `Game` class of the Asteroids test game
(`Game.cpp` and `Game.h`). A game session owns the following state:

- an optional player ship;
- three ordered lists of heap entities: bullets, asteroids and explosions;
- the counters `lives`, `score` and `bulletDelay`, where `bulletDelay` is the fire cooldown.

Each frame runs the same steps in order:

1. The ship takes its control input and moves.
2. The ship may fire a volley of three bullets.
3. The asteroids move.
4. The bullets move.
5. The collision resolver reports overlapping pairs, and `DoCollision` adjudicates each one.
6. The cooldown counter ticks.

A new level clears the asteroids and explosions, spawns a fresh ship and
spawns `n` largest asteroids.

The model has four modules:

- `Entities` (entities.dfy) defines the entity record.
  - Its `id` stands for the C++ pointer.
  - Its `kind` carries what only a ship, an asteroid or a bullet has.
  - It also defines `Find` and `Remove`, the `std::find` and `std::list::remove` the session applies to its lists.
- `Session` (session.dfy) has every operation of `Game` as a function from the state before to the state after.
  - `Inv` is the invariant that every public operation keeps:
    - kinds and radii;
    - asteroid sizes in 1..3;
    - no identity held twice, in one list or in two;
    - lives in 1..3, with score and cooldown non-negative.
  - `Run` keeps `Inv` over any sequence of frames and new levels.
- `Rules` (rules.dfy) proves the game rules about those functions:
  - the split rule;
  - the ship/asteroid and bullet/asteroid rules, and that any other pair changes nothing;
  - the firing rule and the 41-frame spacing of volleys;
  - what a new level leaves.
- `AsteroidsGame` (game.dfy) is the class `Game`.
  - It holds the same fields, and its methods update them in place, with `while` loops where the C++ loops.
  - Each method is proved to leave exactly the state the `Session` function describes.
  - So every rule in `Rules` holds of the class.

A pointer becomes an identity drawn from a counter `nextId`, which stands for
`new`. Each new entity takes the next identity, and identities are never reused.

Some collaborators live outside `Game.cpp`, so the model takes them as inputs:

- Each entity's movement for one frame is a function `motion`. It covers the ship's, asteroids' and bullets' `Update`, and `WrapEntity` for the ship and asteroids.
- The keyboard is five booleans.
- The resolver's report is a sequence of identity pairs.
- The random spawn points are a function `spot` from the asteroid's index to a position.

Notes on what the code does:

- Volleys come at least 41 frames apart, not 40: firing needs the counter strictly above 40, and the counter restarts from zero.
- The lists are ordered `std::list`s, and the model keeps their order.
- The three volley directions are fixed world vectors added to the ship's position. They are not rotated with the ship's heading.

## Model

Source paths are relative to the repository root; `Game.cpp` is
`Version2.0/AsteroidsTest2019/Asteroids/Game.cpp`.

| member | source | states |
|---|---|---|
| AsteroidsGame.Game.constructor | Version2.0/AsteroidsTest2019/Asteroids/Game.cpp:21-29 | the new session has no ship, empty lists, lives 3, score 0, cooldown 0, and satisfies the invariant |
| AsteroidsGame.Game.Update | Version2.0/AsteroidsTest2019/Asteroids/Game.cpp:49-56 | one frame performs, in place, player update, asteroid update, bullet update, collisions, cooldown tick, in that order, and keeps the invariant |
| AsteroidsGame.Game.InitialiseLevel | Version2.0/AsteroidsTest2019/Asteroids/Game.cpp:117-124 | clears asteroids and explosions, spawns the ship, spawns the asteroids, in that order, and keeps the invariant |
| AsteroidsGame.Game.IsLevelComplete | Version2.0/AsteroidsTest2019/Asteroids/Game.cpp:126-129 | true exactly when the asteroid and explosion lists are both empty; reads the state and changes nothing |
| AsteroidsGame.Game.IsGameOver | Version2.0/AsteroidsTest2019/Asteroids/Game.cpp:131-134 | true exactly when there is no ship and the explosion list is empty; reads the state and changes nothing |
| AsteroidsGame.Game.DoCollision | Version2.0/AsteroidsTest2019/Asteroids/Game.cpp:136-161 | classifies each of the pair by list membership, applies the ship rule and the bullet rule, and keeps the invariant |
| AsteroidsGame.Game.ShipMeetsAsteroid | Version2.0/AsteroidsTest2019/Asteroids/Game.cpp:142-153 | one life less, the ship reset, the asteroid hit; with no lives left the ship is deleted and lives and score start over |
| AsteroidsGame.Game.BulletMeetsAsteroid | Version2.0/AsteroidsTest2019/Asteroids/Game.cpp:155-160 | one point more, the asteroid hit, the bullet deleted |
| AsteroidsGame.DoCollisionCases | Version2.0/AsteroidsTest2019/Asteroids/Game.cpp:136-161 | a state reached by the ship branch, the bullet branch or neither, as the classification dictates, is the state `Session.DoCollision` describes |
| AsteroidsGame.Game.SpawnPlayer | Version2.0/AsteroidsTest2019/Asteroids/Game.cpp:163-168 | any old ship is replaced by a new ship with a new identity, radius 10, at the spawn point |
| AsteroidsGame.Game.DeletePlayer | Version2.0/AsteroidsTest2019/Asteroids/Game.cpp:170-174 | the ship slot becomes empty and nothing else changes |
| AsteroidsGame.Game.UpdatePlayer | Version2.0/AsteroidsTest2019/Asteroids/Game.cpp:176-234 | no ship, no change; otherwise the control input is set, the ship moves, and a volley fires when fire is pressed and the cooldown is above 40 |
| AsteroidsGame.Game.UpdateAsteroids | Version2.0/AsteroidsTest2019/Asteroids/Game.cpp:236-246 | the loop moves every asteroid by its own update and keeps list order, identities, kinds and radii |
| AsteroidsGame.Game.UpdateBullet | Version2.0/AsteroidsTest2019/Asteroids/Game.cpp:248-257 | the loop moves every bullet by its own update and keeps list order, identities, kinds and radii |
| AsteroidsGame.Game.DeleteAllAsteroids | Version2.0/AsteroidsTest2019/Asteroids/Game.cpp:268-279 | the asteroid list becomes empty and nothing else changes |
| AsteroidsGame.Game.DeleteAllExplosions | Version2.0/AsteroidsTest2019/Asteroids/Game.cpp:281-292 | the explosion list becomes empty and nothing else changes |
| AsteroidsGame.Game.DeleteAllBullets | Version2.0/AsteroidsTest2019/Asteroids/Game.cpp:294-297 | as written: the explosion list becomes empty and the bullet list is left as it was |
| AsteroidsGame.Game.SpawnBullet | Version2.0/AsteroidsTest2019/Asteroids/Game.cpp:299-306 | appends one bullet with a new identity, radius 3, the given position and direction |
| AsteroidsGame.Game.DeleteBullet | Version2.0/AsteroidsTest2019/Asteroids/Game.cpp:308-312 | the bullet list loses every element with that identity and nothing else changes |
| AsteroidsGame.Game.SpawnAsteroids | Version2.0/AsteroidsTest2019/Asteroids/Game.cpp:314-325 | the loop appends `n` asteroids of size 3, the `i`-th at the `i`-th random spot; none when `n` is not positive |
| AsteroidsGame.Game.SpawnAsteroidAt | Version2.0/AsteroidsTest2019/Asteroids/Game.cpp:327-339 | appends one asteroid with a new identity, the given size and radius size x 5 |
| AsteroidsGame.Game.IsAsteroid | Version2.0/AsteroidsTest2019/Asteroids/Game.cpp:341-345 | true exactly when some element of the asteroid list has that identity |
| AsteroidsGame.Game.IsBullet | Version2.0/AsteroidsTest2019/Asteroids/Game.cpp:347-351 | true exactly when some element of the bullet list has that identity |
| AsteroidsGame.Game.AsteroidHit | Version2.0/AsteroidsTest2019/Asteroids/Game.cpp:353-365 | spawns the two fragments when the size is above 1, then deletes the asteroid |
| AsteroidsGame.Game.DeleteAsteroid | Version2.0/AsteroidsTest2019/Asteroids/Game.cpp:367-371 | the asteroid list loses every element with that identity and nothing else changes |
| AsteroidsGame.Game.UpdateCollisions | Version2.0/AsteroidsTest2019/Asteroids/Game.cpp:373-376 | the loop adjudicates the reported pairs one after another and keeps the invariant after each |
| AsteroidsGame.Game.BulletDelay | Version2.0/AsteroidsTest2019/Asteroids/Game.cpp:378-381 | the cooldown counter rises by one and the invariant is kept |
| Entities.Find | Version2.0/AsteroidsTest2019/Asteroids/Game.cpp:341-351 | `std::find`: nothing is found exactly when no element has the identity; otherwise the result is the first element that has it |
| Entities.Remove | Version2.0/AsteroidsTest2019/Asteroids/Game.cpp:308-312 | `std::list::remove`: an entity is in the result exactly when it was in the list with another identity; the list shrinks when the identity was present |
| Entities.RemoveAt | Version2.0/AsteroidsTest2019/Asteroids/Game.cpp:310 | in a list without duplicates, removing the `k`-th element's identity removes exactly that element and keeps the others in order |
| Entities.RemoveKeepsUnique | Version2.0/AsteroidsTest2019/Asteroids/Game.cpp:369 | removal keeps a list free of duplicate identities |
| Entities.RemoveAbsent | Version2.0/AsteroidsTest2019/Asteroids/Game.cpp:369 | removing an identity the list does not hold changes nothing |
| Entities.RemoveAppend | Version2.0/AsteroidsTest2019/Asteroids/Game.cpp:369 | removal distributes over concatenation |
| Entities.RemoveAtAppend | Version2.0/AsteroidsTest2019/Asteroids/Game.cpp:361-364 | removing an old element's identity after new elements were appended removes exactly that element |
| Entities.AppendKeepsUnique | Version2.0/AsteroidsTest2019/Asteroids/Game.cpp:305 | appending an entity with a new identity keeps the list free of duplicates |
| Session.Initial | Version2.0/AsteroidsTest2019/Asteroids/Game.cpp:21-29 | the initial state satisfies the invariant, has three lives, score 0, no ship, and is both game over and level complete |
| Session.Control | Version2.0/AsteroidsTest2019/Asteroids/Game.cpp:183-201 | thrust is 1 exactly when forward is held, -1 when only backward is, else 0; turn is -1 exactly when right is held, 1 when only left is, else 0 |
| Session.Moved | Version2.0/AsteroidsTest2019/Asteroids/Game.cpp:238-256 | same length, and each element keeps identity, radius and kind while taking its own new position |
| Session.AsteroidHit | Version2.0/AsteroidsTest2019/Asteroids/Game.cpp:353-365 | a hit changes only the asteroid list and the identity counter |
| Session.Split | Version2.0/AsteroidsTest2019/Asteroids/Game.cpp:356-363 | exactly two fragments of size-1, radius (size-1) x 5, at the rock's position and at that position plus (20, 20), are appended with two new identities |
| Session.DoCollision | Version2.0/AsteroidsTest2019/Asteroids/Game.cpp:136-161 | a collision keeps the invariant (lives 1..3, score non-negative, lists well formed) and leaves explosions and the cooldown alone |
| Session.Collisions | Version2.0/AsteroidsTest2019/Asteroids/Game.cpp:373-376 | any sequence of reported pairs keeps the invariant |
| Session.Update | Version2.0/AsteroidsTest2019/Asteroids/Game.cpp:49-56 | a frame keeps the invariant and leaves explosions alone |
| Session.Step | Version2.0/AsteroidsTest2019/Asteroids/Game.cpp:117-124 | a frame or a new level keeps the invariant; explosions are kept or cleared |
| Session.Run | Version2.0/AsteroidsTest2019/Asteroids/Game.cpp:144-157 | after any sequence of frames and new levels lives stay in 1..3, the score stays non-negative, every asteroid has size 1..3 and radius size x 5, and no explosion ever appears |
| Session.SpawnAsteroidsOk | Version2.0/AsteroidsTest2019/Asteroids/Game.cpp:314-325 | spawning keeps the lists well formed and changes only the asteroids and the counter |
| Session.InitialiseLevelOk | Version2.0/AsteroidsTest2019/Asteroids/Game.cpp:117-124 | a new level keeps the invariant and has no explosions |
| Session.RulesExclusive | Version2.0/AsteroidsTest2019/Asteroids/Game.cpp:138-140 | a pair never holds the ship, a bullet and an asteroid at once, so at most one rule applies |
| Session.ShipStruckOk | Version2.0/AsteroidsTest2019/Asteroids/Game.cpp:142-153 | the ship rule keeps the invariant, lives included |
| Session.BulletStruckOk | Version2.0/AsteroidsTest2019/Asteroids/Game.cpp:155-160 | the bullet rule keeps the invariant |
| Session.AsteroidHitOk | Version2.0/AsteroidsTest2019/Asteroids/Game.cpp:353-365 | hitting an asteroid keeps every size in 1..3 and every identity unique |
| Session.SplitOk | Version2.0/AsteroidsTest2019/Asteroids/Game.cpp:356-362 | the two fragments keep the lists well formed |
| Session.SpawnAsteroidAtOk | Version2.0/AsteroidsTest2019/Asteroids/Game.cpp:327-339 | an asteroid of size 1..3 keeps the lists well formed |
| Session.SpawnBulletOk | Version2.0/AsteroidsTest2019/Asteroids/Game.cpp:299-306 | a new bullet keeps the lists well formed |
| Session.DeleteAsteroidOk | Version2.0/AsteroidsTest2019/Asteroids/Game.cpp:367-371 | deleting an asteroid keeps the lists well formed |
| Session.DeleteBulletOk | Version2.0/AsteroidsTest2019/Asteroids/Game.cpp:308-312 | deleting a bullet keeps the lists well formed |
| Session.UpdatePlayerOk | Version2.0/AsteroidsTest2019/Asteroids/Game.cpp:176-234 | the player update, volley included, keeps the invariant |
| Session.UpdateAsteroidsOk | Version2.0/AsteroidsTest2019/Asteroids/Game.cpp:236-246 | moving the asteroids keeps the lists well formed |
| Session.UpdateBulletsOk | Version2.0/AsteroidsTest2019/Asteroids/Game.cpp:248-257 | moving the bullets keeps the lists well formed |
| Session.MovedOk | Version2.0/AsteroidsTest2019/Asteroids/Game.cpp:52-53 | moving asteroids then bullets keeps the invariant |
| Rules.AsteroidHitRule | Version2.0/AsteroidsTest2019/Asteroids/Game.cpp:353-371 | the hit asteroid alone is removed and the others keep their order; above size 1 exactly two fragments of size-1 are appended, at its position and offset by (20, 20); at size 1 nothing is appended; nothing but the asteroid list and the counter changes |
| Rules.HitList | Version2.0/AsteroidsTest2019/Asteroids/Game.cpp:353-371 | the asteroid list after a hit is the old list without the `k`-th element followed by the fragments |
| Rules.HitSplitList | Version2.0/AsteroidsTest2019/Asteroids/Game.cpp:356-364 | for a rock above size 1, the list after the hit is the old list without it followed by the two fragments |
| Rules.SplitHit | Version2.0/AsteroidsTest2019/Asteroids/Game.cpp:361-364 | removing the rock after the split removes it alone and keeps the appended fragments |
| Rules.HitWholeList | Version2.0/AsteroidsTest2019/Asteroids/Game.cpp:364 | a size-1 rock is removed and nothing is appended |
| Rules.HitSeesOnlyAsteroids | Version2.0/AsteroidsTest2019/Asteroids/Game.cpp:353-365 | the list a hit leaves depends only on the asteroid list and the identity counter, not on lives, score or the ship |
| Rules.ShipStrikeRule | Version2.0/AsteroidsTest2019/Asteroids/Game.cpp:142-153 | lives drop by one, the asteroid is hit, bullets and cooldown are untouched; with lives left the ship stays at its spawn point and the score is kept; on the last life the ship is deleted, lives become 3, score 0, and the game is over once no explosion is pending |
| Rules.BulletStrikeRule | Version2.0/AsteroidsTest2019/Asteroids/Game.cpp:155-160 | the score rises by one, the asteroid is hit, exactly that bullet leaves the bullet list, and the ship and lives are untouched |
| Rules.BulletStruckFacts | Version2.0/AsteroidsTest2019/Asteroids/Game.cpp:155-160 | the bullet rule's effect on score, lives, ship, asteroids and bullets, for a bullet found in the list |
| Rules.NoOtherEffect | Version2.0/AsteroidsTest2019/Asteroids/Game.cpp:138-161 | a pair without an asteroid, or with neither the ship nor a bullet, leaves the session exactly as it was |
| Rules.OneClassEach | Version2.0/AsteroidsTest2019/Asteroids/Game.cpp:138-140 | an identity is at most one of the ship, a bullet and an asteroid |
| Rules.VolleyRule | Version2.0/AsteroidsTest2019/Asteroids/Game.cpp:208-233 | with a ship, fire pressed and cooldown above 40, exactly three bullets are appended at the moved ship's position plus the fan directions and the cooldown becomes 0; otherwise bullets and cooldown are untouched; asteroids, lives and score never change |
| Rules.UpdateDelay | Version2.0/AsteroidsTest2019/Asteroids/Game.cpp:378-381 | after a frame the cooldown is one more than before, or 1 after a volley |
| Rules.VolleysSpaced | Version2.0/AsteroidsTest2019/Asteroids/Game.cpp:210-231 | after a volley, no input can fire again during the next 40 frames, whatever new levels come between |
| Rules.CountsFrames | Version2.0/AsteroidsTest2019/Asteroids/Game.cpp:378-381 | starting from 1, and while fewer than 40 frames pass, the cooldown is 1 plus the number of frames among the commands, since new levels leave it alone |
| Rules.InitialiseLevelCounters | Version2.0/AsteroidsTest2019/Asteroids/Game.cpp:117-124 | a new level keeps lives, score and cooldown |
| Rules.InitialiseLevelRule | Version2.0/AsteroidsTest2019/Asteroids/Game.cpp:117-124 | nothing of the old asteroids or explosions is left, bullets are kept, exactly one new ship with a new identity stands at its spawn point, and there are exactly `n` new size-3 asteroids (none for `n` <= 0), the `i`-th at the `i`-th spot; lives, score and cooldown are kept; the level is complete exactly when `n` <= 0 and the game is not over |
| Rules.InitialiseLevelShape | Version2.0/AsteroidsTest2019/Asteroids/Game.cpp:117-124 | the lists, ship and counters of a new level, from any state |
| Rules.NextIdFresh | Version2.0/AsteroidsTest2019/Asteroids/Game.cpp:166 | the identity `new` hands out next is held by no entity |
| Rules.FreshAfter | Version2.0/AsteroidsTest2019/Asteroids/Game.cpp:336 | entities created after the counter passed every old identity share no identity with the old ones |
| Rules.SpawnAsteroidsList | Version2.0/AsteroidsTest2019/Asteroids/Game.cpp:314-325 | spawning appends one size-3 asteroid per spot with consecutive new identities and changes nothing else |
| Rules.ShootingTheOnlyAsteroid | Version2.0/AsteroidsTest2019/Asteroids/Game.cpp:155-160 | shooting the only asteroid of a level, of size 3, leaves two size-2 asteroids 20 apart on each axis, one bullet fewer and one point more |

## Left out

- Rendering is not modelled: the background, the entities' `Render`, and the score and lives text (`Game.cpp:58-115`). Neither is camera and background construction (`Game.cpp:31-34`). These calls are graphics, with no session state.
- Entity kinematics are not modelled, because `Ship.cpp`, `Asteroid.cpp`, `Bullet.cpp` and `Maths` are not part of this model. `Ship::Update`, `Asteroid::Update`, `Bullet::Update` and `WrapEntity` (including `Maths::WrapModulo`) become the frame's `motion` function. The model keeps the fact that these change only positions. It also keeps the order: the ship is moved before it fires, and asteroids are moved before bullets.
- Positions are exact reals, not 32-bit floats, so rounding is not modelled.
- `Random::GetFloat` spawn positions become the `spot` parameter. Asteroid velocities are not represented, because only kinematics reads them.
- Collision detection (`Collision::DoCollisions`) is not part of this model. `UpdateCollisions` takes the reported pairs as a sequence, in report order.
- The keyboard becomes five booleans. Fire is the key pressed this frame; the other four are keys held. Either of the two keys for each direction sets the same boolean.
- `Ship::Reset` is not part of this model. A reset ship returns to the spawn point `home` with the same identity and radius. Velocity and heading are not represented.
- `new`, `delete` and the destructor (`Game.cpp:38-47`) are not modelled. Identities come from a counter and are never reused, whereas the C++ heap may reuse a freed address.
- Nothing in `Game.cpp` creates an explosion. The explosion list therefore only ever empties, and `Run` proves that an empty list stays empty.
- The cooldown counter and the score are unbounded integers. The C++ `int` would overflow after about 2^31 frames or points, and the model does not capture that.
- `AsteroidsGame.Game.UpdatePlayer`: the model sets the control input, then moves the ship. It does not model how the thrust and turn values change velocity and heading, because that happens in `Ship.cpp`.
