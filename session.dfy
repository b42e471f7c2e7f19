/** The state of one game session and every operation of `Game` as a
    function from the state before to the state after. The class in
    game.dfy performs the same steps in place and is proved equal to these
    functions; the lemmas in rules.dfy state what the operations promise. */
module Session {
  import opened Entities

  const STARTING_LIVES := 3
  const LARGEST_ASTEROID := 3
  /** A volley needs the cooldown counter strictly above this. */
  const FIRE_THRESHOLD := 40
  const SHIP_RADIUS: real := 10.0
  const BULLET_RADIUS: real := 3.0
  /** An asteroid's collision radius is its size times this. */
  const ASTEROID_RADIUS_UNIT: real := 5.0
  /** Where the second fragment of a split asteroid appears, relative to the first. */
  const SPLIT_OFFSET := Vec(20.0, 20.0)
  /** The three fixed directions of a volley; each bullet starts at the
      ship's position plus its direction. */
  const FAN_LEFT := Vec(-0.5, 1.0)
  const FAN_CENTRE := Vec(0.0, 1.0)
  const FAN_RIGHT := Vec(0.5, 1.0)

  /** The keyboard as the session reads it in one frame: four held
      controls and the fire key pressed this frame. */
  datatype Input = Input(forward: bool, backward: bool, turnLeft: bool, turnRight: bool, fire: bool)

  /** What one call of `Update` consumes from its collaborators: the
      keyboard, the kinematics of each entity (its position after its own
      update and, for the ship and asteroids, after wrapping) and the
      pairs the collision resolver reports, in the order it reports them. */
  datatype Frame = Frame(input: Input, motion: Entity -> Vec, pairs: seq<(EntityId, EntityId)>)

  datatype State = State(
    home: Vec,                  // where a new or reset ship stands
    player: Option<Entity>,
    bullets: seq<Entity>,
    asteroids: seq<Entity>,
    explosions: seq<Entity>,
    bulletDelay: int,
    lives: int,
    score: int,
    nextId: EntityId)           // the next identity `new` hands out

  /** The entity lists are well formed: each holds its own kind with the
      radius it was registered with, every asteroid has a size in 1..3,
      no identity occurs twice, and every identity was handed out. */
  predicate EntitiesOk(st: State) {
    ShipOk(st) && BulletsOk(st) && AsteroidsOk(st) && ExplosionsOk(st) && Separate(st)
  }

  /** The ship, if any, has the ship's radius and an identity of its own. */
  predicate ShipOk(st: State) {
    st.player.Some? ==>
      var p := st.player.value;
      && p.kind.Ship? && p.radius == SHIP_RADIUS && p.id < st.nextId
      && Absent(p.id, st.bullets) && Absent(p.id, st.asteroids) && Absent(p.id, st.explosions)
  }

  predicate BulletsOk(st: State) {
    forall e :: e in st.bullets ==> e.kind.Bullet? && e.radius == BULLET_RADIUS && e.id < st.nextId
  }

  predicate AsteroidsOk(st: State) {
    forall e :: e in st.asteroids ==>
      && e.kind.Asteroid? && 1 <= e.kind.size <= LARGEST_ASTEROID
      && e.radius == e.kind.size as real * ASTEROID_RADIUS_UNIT && e.id < st.nextId
  }

  predicate ExplosionsOk(st: State) {
    forall e :: e in st.explosions ==> e.kind.Explosion? && e.id < st.nextId
  }

  /** No identity occurs twice within a list or in two lists. */
  predicate Separate(st: State) {
    && Unique(st.bullets) && Unique(st.asteroids) && Unique(st.explosions)
    && Apart(st.bullets, st.asteroids) && Apart(st.bullets, st.explosions) && Apart(st.asteroids, st.explosions)
  }

  /** Lives stay in 1..3, the score and the cooldown counter never go negative. */
  predicate CountersOk(st: State) {
    1 <= st.lives <= STARTING_LIVES && st.score >= 0 && st.bulletDelay >= 0
  }

  /** What holds between any two calls of the session's public operations. */
  predicate Inv(st: State) {
    EntitiesOk(st) && CountersOk(st)
  }

  /** The constructor: no ship, empty lists, three lives, no score, cooldown zero. */
  function Initial(home: Vec): (st: State)
    ensures Inv(st) && st.player.None? && st.lives == STARTING_LIVES && st.score == 0
    ensures IsGameOver(st) && IsLevelComplete(st)
  {
    State(home, None, [], [], [], 0, STARTING_LIVES, 0, 0)
  }

  // ----- queries -----

  predicate IsLevelComplete(st: State) {
    st.asteroids == [] && st.explosions == []
  }

  predicate IsGameOver(st: State) {
    st.player.None? && st.explosions == []
  }

  predicate IsAsteroid(st: State, id: EntityId) {
    Find(st.asteroids, id).Some?
  }

  predicate IsBullet(st: State, id: EntityId) {
    Find(st.bullets, id).Some?
  }

  // ----- the ship -----

  /** `SpawnPlayer`: any previous ship is deleted and a new one, with the
      ship's collision radius, is created at its spawn point. A new ship
      carries no control input until its first frame sets it. */
  function SpawnPlayer(st: State): State {
    st.(player := Some(Entity(st.nextId, st.home, SHIP_RADIUS, Ship(0, 0))), nextId := st.nextId + 1)
  }

  function DeletePlayer(st: State): State {
    st.(player := None)
  }

  /** The control input of the keyboard state: forward thrust wins over
      backward, turning right wins over turning left. */
  function Control(input: Input): (c: (int, int))
    ensures c.0 == 1 <==> input.forward
    ensures c.0 == -1 <==> !input.forward && input.backward
    ensures c.0 == 0 <==> !input.forward && !input.backward
    ensures c.1 == -1 <==> input.turnRight
    ensures c.1 == 1 <==> !input.turnRight && input.turnLeft
    ensures c.1 == 0 <==> !input.turnRight && !input.turnLeft
  {
    var thrust := if input.forward then 1 else if input.backward then -1 else 0;
    var turn := if input.turnRight then -1 else if input.turnLeft then 1 else 0;
    (thrust, turn)
  }

  /** Whether this frame's `UpdatePlayer` fires a volley. */
  predicate Fires(st: State, input: Input) {
    st.player.Some? && input.fire && st.bulletDelay > FIRE_THRESHOLD
  }

  /** Three bullets from the ship's position along the fan, and the
      cooldown counter back to zero. */
  function Volley(st: State): State
    requires st.player.Some?
  {
    var at := st.player.value.pos;
    var st1 := SpawnBullet(SpawnBullet(SpawnBullet(st, at.Plus(FAN_LEFT), FAN_LEFT),
                                       at.Plus(FAN_CENTRE), FAN_CENTRE),
                           at.Plus(FAN_RIGHT), FAN_RIGHT);
    st1.(bulletDelay := 0)
  }

  /** `UpdatePlayer`: nothing without a ship; otherwise the ship takes the
      control input, moves, and fires a volley if fire is pressed and the
      cooldown has run out. */
  function UpdatePlayer(st: State, input: Input, motion: Entity -> Vec): State
    requires st.player.Some? ==> st.player.value.kind.Ship?
  {
    if st.player.None? then st
    else
      var c := Control(input);
      var steered := st.player.value.(kind := Ship(c.0, c.1));
      var st1 := st.(player := Some(steered.(pos := motion(steered))));
      if input.fire && st1.bulletDelay > FIRE_THRESHOLD then Volley(st1) else st1
  }

  // ----- bullets -----

  function SpawnBullet(st: State, pos: Vec, dir: Vec): State {
    st.(bullets := st.bullets + [Entity(st.nextId, pos, BULLET_RADIUS, Bullet(dir))], nextId := st.nextId + 1)
  }

  function DeleteBullet(st: State, id: EntityId): State {
    st.(bullets := Remove(st.bullets, id))
  }

  /** `DeleteAllBullets` as written: it clears the explosion list and
      leaves the bullet list alone. */
  function DeleteAllBullets(st: State): State {
    st.(explosions := [])
  }

  // ----- asteroids -----

  /** A new asteroid of the given size at `pos`, registered with radius size x 5. */
  function SpawnAsteroidAt(st: State, pos: Vec, size: int): State {
    var rock := Entity(st.nextId, pos, size as real * ASTEROID_RADIUS_UNIT, Asteroid(size));
    st.(asteroids := st.asteroids + [rock], nextId := st.nextId + 1)
  }

  /** `SpawnAsteroids(n)`: `n` asteroids of the largest size, the `i`-th at
      `spot(i)` (the random draw); none when `n` is not positive. */
  function SpawnAsteroids(st: State, n: int, spot: nat -> Vec): State
    decreases n
  {
    if n <= 0 then st
    else SpawnAsteroidAt(SpawnAsteroids(st, n - 1, spot), spot(n - 1), LARGEST_ASTEROID)
  }

  function DeleteAsteroid(st: State, id: EntityId): State {
    st.(asteroids := Remove(st.asteroids, id))
  }

  function DeleteAllAsteroids(st: State): State {
    st.(asteroids := [])
  }

  function DeleteAllExplosions(st: State): State {
    st.(explosions := [])
  }

  /** `AsteroidHit`: a rock larger than the smallest size leaves two
      fragments one size smaller, at its position and offset from it; then
      the rock itself is removed. */
  function AsteroidHit(st: State, rock: Entity): (r: State)
    requires rock.kind.Asteroid?
    ensures Unchanged(st, r) && st.nextId <= r.nextId
  {
    var st1 := if rock.kind.size > 1 then Split(st, rock) else st;
    DeleteAsteroid(st1, rock.id)
  }

  // ----- level -----

  /** `InitialiseLevel(n)`: asteroids and explosions cleared, a new ship,
      `n` new asteroids. */
  function InitialiseLevel(st: State, n: int, spot: nat -> Vec): State {
    SpawnAsteroids(SpawnPlayer(DeleteAllExplosions(DeleteAllAsteroids(st))), n, spot)
  }

  // ----- collisions -----

  /** The ship, if it is one of the pair. */
  function ShipOf(st: State, a: EntityId, b: EntityId): Option<Entity> {
    if st.player.Some? && st.player.value.id == a then st.player
    else if st.player.Some? && st.player.value.id == b then st.player
    else None
  }

  /** The first of the pair that is a bullet, if any. */
  function BulletOf(st: State, a: EntityId, b: EntityId): Option<EntityId> {
    if IsBullet(st, a) then Some(a)
    else if IsBullet(st, b) then Some(b)
    else None
  }

  /** The first of the pair that is an asteroid, if any. */
  function AsteroidOf(st: State, a: EntityId, b: EntityId): Option<Entity> {
    if IsAsteroid(st, a) then Find(st.asteroids, a)
    else if IsAsteroid(st, b) then Find(st.asteroids, b)
    else None
  }

  /** The ship met an asteroid: one life less, the ship back at its spawn
      point, the asteroid hit; with no lives left the ship is deleted and
      lives and score start over. */
  function ShipStruck(st: State, ship: Entity, rock: Entity): State
    requires rock.kind.Asteroid?
  {
    var st1 := st.(lives := st.lives - 1, player := Some(ship.(pos := st.home)));
    var st2 := AsteroidHit(st1, rock);
    if st2.lives <= 0 then DeletePlayer(st2).(lives := STARTING_LIVES, score := 0) else st2
  }

  /** A bullet met an asteroid: one point more, the asteroid hit, the bullet deleted. */
  function BulletStruck(st: State, shot: EntityId, rock: Entity): State
    requires rock.kind.Asteroid?
  {
    DeleteBullet(AsteroidHit(st.(score := st.score + 1), rock), shot)
  }

  /** `DoCollision(a, b)`: each of the pair is classified by the list that
      holds it; a ship/asteroid pair and a bullet/asteroid pair each have
      their rule, any other pair changes nothing. */
  function DoCollision(st: State, a: EntityId, b: EntityId): (r: State)
    requires Inv(st)
    ensures Inv(r)
    ensures r.home == st.home && r.bulletDelay == st.bulletDelay && r.explosions == st.explosions
  {
    var ship := ShipOf(st, a, b);
    var shot := BulletOf(st, a, b);
    var rock := AsteroidOf(st, a, b);
    var st1 := if ship.Some? && rock.Some? then ShipStruck(st, ship.value, rock.value) else st;
    RulesExclusive(st, a, b);
    if shot.Some? && rock.Some? then
      BulletStruckOk(st1, shot.value, rock.value);
      BulletStruck(st1, shot.value, rock.value)
    else
      if ship.Some? && rock.Some? then ShipStruckOk(st, ship.value, rock.value); st1
      else st1
  }

  /** The resolver's reports, adjudicated one after the other. */
  function Collisions(st: State, pairs: seq<(EntityId, EntityId)>): (r: State)
    requires Inv(st)
    ensures Inv(r)
    ensures r.home == st.home && r.bulletDelay == st.bulletDelay && r.explosions == st.explosions
  {
    if pairs == [] then st
    else
      var last := pairs[|pairs| - 1];
      DoCollision(Collisions(st, pairs[..|pairs| - 1]), last.0, last.1)
  }

  // ----- the frame -----

  /** Every entity of the list moved by its own update. */
  function Moved(s: seq<Entity>, motion: Entity -> Vec): (r: seq<Entity>)
    ensures |r| == |s|
    ensures forall i :: 0 <= i < |s| ==> r[i] == s[i].(pos := motion(s[i]))
  {
    seq(|s|, i requires 0 <= i < |s| => s[i].(pos := motion(s[i])))
  }

  function UpdateAsteroids(st: State, motion: Entity -> Vec): State {
    st.(asteroids := Moved(st.asteroids, motion))
  }

  function UpdateBullets(st: State, motion: Entity -> Vec): State {
    st.(bullets := Moved(st.bullets, motion))
  }

  /** `BulletDelay`: the cooldown counter advances by one frame. */
  function BulletDelay(st: State): State {
    st.(bulletDelay := st.bulletDelay + 1)
  }

  /** `Update`: the ship (and firing), then asteroids, then bullets, then
      collisions, then the cooldown tick. */
  function Update(st: State, f: Frame): (r: State)
    requires Inv(st)
    ensures Inv(r)
    ensures r.home == st.home && r.explosions == st.explosions
  {
    UpdatePlayerOk(st, f.input, f.motion);
    var st1 := UpdatePlayer(st, f.input, f.motion);
    MovedOk(st1, f.motion);
    var st2 := UpdateBullets(UpdateAsteroids(st1, f.motion), f.motion);
    BulletDelay(Collisions(st2, f.pairs))
  }

  /** What the program around the session asks of it: a frame, or a new level. */
  datatype Command = Play(frame: Frame) | StartLevel(count: int, spot: nat -> Vec)

  function Step(st: State, c: Command): (r: State)
    requires Inv(st)
    ensures Inv(r)
    ensures r.explosions == [] || r.explosions == st.explosions
  {
    match c
    case Play(f) => Update(st, f)
    case StartLevel(n, spot) => InitialiseLevelOk(st, n, spot); InitialiseLevel(st, n, spot)
  }

  /** The session after a sequence of commands. Every state reached keeps
      the invariant, so lives stay in 1..3 and the score never goes
      negative; and since nothing in the session creates an explosion, an
      empty explosion list stays empty. */
  function Run(st: State, cmds: seq<Command>): (r: State)
    requires Inv(st)
    ensures Inv(r) && 1 <= r.lives <= STARTING_LIVES && r.score >= 0
    ensures st.explosions == [] ==> r.explosions == []
  {
    if cmds == [] then st
    else Step(Run(st, cmds[..|cmds| - 1]), cmds[|cmds| - 1])
  }

  // ----- the invariant is kept -----

  lemma {:induction false} SpawnAsteroidsOk(st: State, n: int, spot: nat -> Vec)
    requires EntitiesOk(st)
    ensures EntitiesOk(SpawnAsteroids(st, n, spot))
    ensures SpawnAsteroids(st, n, spot).(asteroids := st.asteroids, nextId := st.nextId) == st
    decreases n
  {
    if n > 0 {
      SpawnAsteroidsOk(st, n - 1, spot);
      SpawnAsteroidAtOk(SpawnAsteroids(st, n - 1, spot), spot(n - 1), LARGEST_ASTEROID);
    }
  }

  lemma InitialiseLevelOk(st: State, n: int, spot: nat -> Vec)
    requires Inv(st)
    ensures Inv(InitialiseLevel(st, n, spot)) && InitialiseLevel(st, n, spot).explosions == []
  {
    var st1 := SpawnPlayer(DeleteAllExplosions(DeleteAllAsteroids(st)));
    assert EntitiesOk(st1);
    SpawnAsteroidsOk(st1, n, spot);
  }

  lemma RulesExclusive(st: State, a: EntityId, b: EntityId)
    requires EntitiesOk(st)
    ensures !(ShipOf(st, a, b).Some? && BulletOf(st, a, b).Some? && AsteroidOf(st, a, b).Some?)
  {
  }

  lemma ShipStruckOk(st: State, ship: Entity, rock: Entity)
    requires Inv(st) && st.player == Some(ship) && rock in st.asteroids
    ensures Inv(ShipStruck(st, ship, rock))
  {
    var st1 := st.(lives := st.lives - 1, player := Some(ship.(pos := st.home)));
    assert EntitiesOk(st1) by { SameListsOk(st, st1); }
    var st2 := AsteroidHit(st1, rock);
    assert EntitiesOk(st2) by { AsteroidHitOk(st1, rock); }
    if st2.lives <= 0 {
      SameListsOk(st2, DeletePlayer(st2).(lives := STARTING_LIVES, score := 0));
    }
  }

  lemma BulletStruckOk(st: State, shot: EntityId, rock: Entity)
    requires Inv(st) && rock in st.asteroids
    ensures Inv(BulletStruck(st, shot, rock))
  {
    var st1 := st.(score := st.score + 1);
    assert EntitiesOk(st1) by { SameListsOk(st, st1); }
    var st2 := AsteroidHit(st1, rock);
    assert EntitiesOk(st2) by { AsteroidHitOk(st1, rock); }
    DeleteBulletOk(st2, shot);
  }

  /** Well-formedness depends only on the lists, the identity counter and
      the ship's identity, kind and radius. */
  lemma SameListsOk(st: State, r: State)
    requires EntitiesOk(st)
    requires r.bullets == st.bullets && r.asteroids == st.asteroids
    requires r.explosions == st.explosions && r.nextId == st.nextId
    requires r.player.Some? ==>
               && st.player.Some? && r.player.value.id == st.player.value.id
               && r.player.value.kind.Ship? && r.player.value.radius == st.player.value.radius
    ensures EntitiesOk(r)
  {
  }

  /** Only the asteroid list and the identity counter differ. */
  predicate Unchanged(st: State, r: State) {
    && r.home == st.home && r.player == st.player && r.bullets == st.bullets
    && r.explosions == st.explosions && r.bulletDelay == st.bulletDelay
    && r.lives == st.lives && r.score == st.score
  }

  lemma AsteroidHitOk(st: State, rock: Entity)
    requires EntitiesOk(st) && rock in st.asteroids
    ensures EntitiesOk(AsteroidHit(st, rock))
  {
    var size := rock.kind.size;
    var st1 := if size > 1 then Split(st, rock) else st;
    assert EntitiesOk(st1) by {
      if size > 1 {
        SplitOk(st, rock);
      }
    }
    assert EntitiesOk(DeleteAsteroid(st1, rock.id)) by {
      DeleteAsteroidOk(st1, rock.id);
    }
  }

  /** The two fragments `AsteroidHit` spawns for a rock larger than the smallest size. */
  function Split(st: State, rock: Entity): (r: State)
    requires rock.kind.Asteroid?
    ensures Unchanged(st, r) && r.nextId == st.nextId + 2
    ensures r.asteroids == st.asteroids + [Entity(st.nextId, rock.pos, (rock.kind.size - 1) as real * ASTEROID_RADIUS_UNIT, Asteroid(rock.kind.size - 1)),
                                          Entity(st.nextId + 1, rock.pos.Plus(SPLIT_OFFSET), (rock.kind.size - 1) as real * ASTEROID_RADIUS_UNIT, Asteroid(rock.kind.size - 1))]
  {
    SpawnAsteroidAt(SpawnAsteroidAt(st, rock.pos, rock.kind.size - 1),
                    rock.pos.Plus(SPLIT_OFFSET), rock.kind.size - 1)
  }

  lemma SplitOk(st: State, rock: Entity)
    requires EntitiesOk(st) && rock in st.asteroids && rock.kind.size > 1
    ensures EntitiesOk(Split(st, rock))
  {
    var st1 := SpawnAsteroidAt(st, rock.pos, rock.kind.size - 1);
    assert EntitiesOk(st1) by { SpawnAsteroidAtOk(st, rock.pos, rock.kind.size - 1); }
    SpawnAsteroidAtOk(st1, rock.pos.Plus(SPLIT_OFFSET), rock.kind.size - 1);
  }

  lemma SpawnAsteroidAtOk(st: State, pos: Vec, size: int)
    requires EntitiesOk(st) && 1 <= size <= LARGEST_ASTEROID
    ensures EntitiesOk(SpawnAsteroidAt(st, pos, size))
  {
    var rock := Entity(st.nextId, pos, size as real * ASTEROID_RADIUS_UNIT, Asteroid(size));
    AppendKeepsUnique(st.asteroids, rock);
  }

  lemma SpawnBulletOk(st: State, pos: Vec, dir: Vec)
    requires EntitiesOk(st)
    ensures EntitiesOk(SpawnBullet(st, pos, dir))
  {
    AppendKeepsUnique(st.bullets, Entity(st.nextId, pos, BULLET_RADIUS, Bullet(dir)));
  }

  lemma DeleteAsteroidOk(st: State, id: EntityId)
    requires EntitiesOk(st)
    ensures EntitiesOk(DeleteAsteroid(st, id))
  {
    RemoveKeepsUnique(st.asteroids, id);
  }

  lemma DeleteBulletOk(st: State, id: EntityId)
    requires EntitiesOk(st)
    ensures EntitiesOk(DeleteBullet(st, id))
  {
    RemoveKeepsUnique(st.bullets, id);
  }

  lemma UpdatePlayerOk(st: State, input: Input, motion: Entity -> Vec)
    requires Inv(st)
    ensures Inv(UpdatePlayer(st, input, motion))
  {
    if st.player.Some? {
      var c := Control(input);
      var steered := st.player.value.(kind := Ship(c.0, c.1));
      var st1 := st.(player := Some(steered.(pos := motion(steered))));
      if input.fire && st1.bulletDelay > FIRE_THRESHOLD {
        var at := st1.player.value.pos;
        SpawnBulletOk(st1, at.Plus(FAN_LEFT), FAN_LEFT);
        var st2 := SpawnBullet(st1, at.Plus(FAN_LEFT), FAN_LEFT);
        SpawnBulletOk(st2, at.Plus(FAN_CENTRE), FAN_CENTRE);
        var st3 := SpawnBullet(st2, at.Plus(FAN_CENTRE), FAN_CENTRE);
        SpawnBulletOk(st3, at.Plus(FAN_RIGHT), FAN_RIGHT);
      }
    }
  }

  /** Moving keeps every identity where it was. */
  lemma MovedKeeps(s: seq<Entity>, t: seq<Entity>, id: EntityId, motion: Entity -> Vec)
    ensures Unique(s) ==> Unique(Moved(s, motion))
    ensures Absent(id, s) ==> Absent(id, Moved(s, motion))
    ensures Apart(s, t) ==> Apart(Moved(s, motion), t)
    ensures Apart(t, s) ==> Apart(t, Moved(s, motion))
  {
    var r := Moved(s, motion);
    forall e | e in r ensures exists f :: f in s && f.id == e.id {
      var i :| 0 <= i < |r| && r[i] == e;
      assert s[i] in s;
    }
  }

  lemma UpdateAsteroidsOk(st: State, motion: Entity -> Vec)
    requires EntitiesOk(st)
    ensures EntitiesOk(UpdateAsteroids(st, motion))
  {
    var rocks := Moved(st.asteroids, motion);
    forall e | e in rocks
      ensures e.kind.Asteroid? && 1 <= e.kind.size <= LARGEST_ASTEROID
      ensures e.radius == e.kind.size as real * ASTEROID_RADIUS_UNIT && e.id < st.nextId
    {
      var i :| 0 <= i < |rocks| && rocks[i] == e;
      assert st.asteroids[i] in st.asteroids;
    }
    MovedKeeps(st.asteroids, st.bullets, if st.player.Some? then st.player.value.id else 0, motion);
    MovedKeeps(st.asteroids, st.explosions, 0, motion);
  }

  lemma UpdateBulletsOk(st: State, motion: Entity -> Vec)
    requires EntitiesOk(st)
    ensures EntitiesOk(UpdateBullets(st, motion))
  {
    var shots := Moved(st.bullets, motion);
    forall e | e in shots ensures e.kind.Bullet? && e.radius == BULLET_RADIUS && e.id < st.nextId {
      var i :| 0 <= i < |shots| && shots[i] == e;
      assert st.bullets[i] in st.bullets;
    }
    MovedKeeps(st.bullets, st.asteroids, if st.player.Some? then st.player.value.id else 0, motion);
    MovedKeeps(st.bullets, st.explosions, 0, motion);
  }

  lemma MovedOk(st: State, motion: Entity -> Vec)
    requires Inv(st)
    ensures Inv(UpdateBullets(UpdateAsteroids(st, motion), motion))
  {
    UpdateAsteroidsOk(st, motion);
    UpdateBulletsOk(UpdateAsteroids(st, motion), motion);
  }
}
