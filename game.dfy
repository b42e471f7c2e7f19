/** The `Game` class: the session's state held in fields that its methods
    update in place. Each method is proved to leave the state the
    corresponding function of module Session describes, so the rules
    proved in module Rules hold of the class. */
module AsteroidsGame {
  import opened Entities
  import opened Session

  class Game {
    /** Where a new or reset ship stands (the spawn state of a ship). */
    const home: Vec
    var player: Option<Entity>
    var bullets: seq<Entity>
    var asteroids: seq<Entity>
    var explosions: seq<Entity>
    var bulletDelay: int
    var lives: int
    var score: int
    /** Stands in for `new`: the identity the next created entity gets. */
    var nextId: EntityId

    /** The fields as one value of the session model. */
    function Model(): State
      reads this
    {
      State(home, player, bullets, asteroids, explosions, bulletDelay, lives, score, nextId)
    }

    ghost predicate Valid()
      reads this
    {
      Inv(Model())
    }

    /** No ship, no entities, three lives, no score, cooldown counter zero. */
    constructor (home: Vec)
      ensures Valid() && Model() == Initial(home)
    {
      this.home := home;
      player := None;
      bullets := [];
      asteroids := [];
      explosions := [];
      bulletDelay := 0;
      lives := STARTING_LIVES;
      score := 0;
      nextId := 0;
    }

    /** One frame: the ship (and firing), then asteroids, then bullets,
        then collisions, then the cooldown tick. */
    method Update(f: Frame)
      requires Valid()
      modifies this
      ensures Valid() && Model() == Session.Update(old(Model()), f)
    {
      UpdatePlayerOk(Model(), f.input, f.motion);
      UpdatePlayer(f.input, f.motion);
      MovedOk(Model(), f.motion);
      UpdateAsteroids(f.motion);
      UpdateBullet(f.motion);
      UpdateCollisions(f.pairs);
      BulletDelay();
    }

    method InitialiseLevel(numAsteroids: int, spot: nat -> Vec)
      requires Valid()
      modifies this
      ensures Valid() && Model() == Session.InitialiseLevel(old(Model()), numAsteroids, spot)
    {
      InitialiseLevelOk(Model(), numAsteroids, spot);
      DeleteAllAsteroids();
      DeleteAllExplosions();
      SpawnPlayer();
      SpawnAsteroids(numAsteroids, spot);
    }

    predicate IsLevelComplete(): (complete: bool)
      reads this
      ensures complete <==> |asteroids| == 0 && |explosions| == 0
    {
      Session.IsLevelComplete(Model())
    }

    predicate IsGameOver(): (over: bool)
      reads this
      ensures over <==> player.None? && |explosions| == 0
    {
      Session.IsGameOver(Model())
    }

    /** Classifies both entities by the list that holds them and applies
        the ship/asteroid rule and the bullet/asteroid rule. */
    method DoCollision(a: EntityId, b: EntityId)
      requires Valid()
      modifies this
      ensures Valid() && Model() == Session.DoCollision(old(Model()), a, b)
    {
      ghost var before := Model();
      RulesExclusive(before, a, b);
      var ship := if player.Some? && player.value.id == a then player
                  else if player.Some? && player.value.id == b then player
                  else None;
      var shot := if IsBullet(a) then Some(a) else if IsBullet(b) then Some(b) else None;
      var rock := if IsAsteroid(a) then Find(asteroids, a)
                  else if IsAsteroid(b) then Find(asteroids, b)
                  else None;
      assert ship == ShipOf(before, a, b) && shot == BulletOf(before, a, b);
      assert rock == AsteroidOf(before, a, b);
      assert rock.Some? ==> rock.value.kind.Asteroid? by {
        if rock.Some? {
          assert rock.value in before.asteroids;
        }
      }
      if ship.Some? && rock.Some? {
        ShipMeetsAsteroid(ship.value, rock.value);
      }
      if shot.Some? && rock.Some? {
        BulletMeetsAsteroid(shot.value, rock.value);
      }
      DoCollisionCases(before, a, b, Model());
    }

    /** The ship/asteroid branch of `DoCollision`: one life less, the ship
        reset, the asteroid hit; with no lives left the ship is deleted and
        lives and score start over. */
    method ShipMeetsAsteroid(ship: Entity, rock: Entity)
      requires rock.kind.Asteroid?
      modifies this
      ensures Model() == ShipStruck(old(Model()), ship, rock)
    {
      lives := lives - 1;
      player := Some(ship.(pos := home));   // the ship's Reset
      AsteroidHit(rock);
      if lives <= 0 {
        DeletePlayer();
        lives := STARTING_LIVES;
        score := 0;
      }
    }

    /** The bullet/asteroid branch of `DoCollision`: one point more, the
        asteroid hit, the bullet deleted. */
    method BulletMeetsAsteroid(shot: EntityId, rock: Entity)
      requires rock.kind.Asteroid?
      modifies this
      ensures Model() == BulletStruck(old(Model()), shot, rock)
    {
      score := score + 1;
      AsteroidHit(rock);
      DeleteBullet(shot);
    }

    /** Deletes any ship there is and creates a new one at its spawn point. */
    method SpawnPlayer()
      modifies this
      ensures Model() == Session.SpawnPlayer(old(Model()))
    {
      DeletePlayer();
      player := Some(Entity(nextId, home, SHIP_RADIUS, Ship(0, 0)));
      nextId := nextId + 1;
    }

    method DeletePlayer()
      modifies this
      ensures Model() == Session.DeletePlayer(old(Model()))
    {
      player := None;
    }

    /** Without a ship nothing happens. Otherwise the ship takes the
        control input and moves; with fire pressed and the cooldown counter
        above 40 it fires three bullets along the fan and the counter
        starts again from zero. */
    method UpdatePlayer(input: Input, motion: Entity -> Vec)
      requires player.Some? ==> player.value.kind.Ship?
      modifies this
      ensures Model() == Session.UpdatePlayer(old(Model()), input, motion)
    {
      if player.None? {
        return;
      }
      var c := Control(input);
      var steered := player.value.(kind := Ship(c.0, c.1));   // SetControlInput
      player := Some(steered.(pos := motion(steered)));       // Update and WrapEntity
      if input.fire {
        if bulletDelay > FIRE_THRESHOLD {
          var at := player.value.pos;
          SpawnBullet(at.Plus(FAN_LEFT), FAN_LEFT);
          SpawnBullet(at.Plus(FAN_CENTRE), FAN_CENTRE);
          SpawnBullet(at.Plus(FAN_RIGHT), FAN_RIGHT);
          bulletDelay := 0;
        }
      }
    }

    /** Moves every asteroid by its own update, in list order. */
    method UpdateAsteroids(motion: Entity -> Vec)
      modifies this
      ensures Model() == Session.UpdateAsteroids(old(Model()), motion)
    {
      var i := 0;
      while i < |asteroids|
        invariant 0 <= i <= |asteroids| == |old(asteroids)|
        invariant forall k :: 0 <= k < i ==> asteroids[k] == old(asteroids)[k].(pos := motion(old(asteroids)[k]))
        invariant forall k :: i <= k < |asteroids| ==> asteroids[k] == old(asteroids)[k]
        invariant Model().(asteroids := old(asteroids)) == old(Model())
      {
        var rock := asteroids[i];
        asteroids := asteroids[i := rock.(pos := motion(rock))];
        i := i + 1;
      }
      assert asteroids == Moved(old(asteroids), motion);
    }

    /** Moves every bullet by its own update, in list order. */
    method UpdateBullet(motion: Entity -> Vec)
      modifies this
      ensures Model() == Session.UpdateBullets(old(Model()), motion)
    {
      var i := 0;
      while i < |bullets|
        invariant 0 <= i <= |bullets| == |old(bullets)|
        invariant forall k :: 0 <= k < i ==> bullets[k] == old(bullets)[k].(pos := motion(old(bullets)[k]))
        invariant forall k :: i <= k < |bullets| ==> bullets[k] == old(bullets)[k]
        invariant Model().(bullets := old(bullets)) == old(Model())
      {
        var shot := bullets[i];
        bullets := bullets[i := shot.(pos := motion(shot))];
        i := i + 1;
      }
      assert bullets == Moved(old(bullets), motion);
    }

    method DeleteAllAsteroids()
      modifies this
      ensures Model() == Session.DeleteAllAsteroids(old(Model()))
    {
      asteroids := [];
    }

    method DeleteAllExplosions()
      modifies this
      ensures Model() == Session.DeleteAllExplosions(old(Model()))
    {
      explosions := [];
    }

    /** As written, this clears the explosion list; the bullets stay. */
    method DeleteAllBullets()
      modifies this
      ensures Model() == Session.DeleteAllBullets(old(Model()))
      ensures bullets == old(bullets) && explosions == []
    {
      explosions := [];
    }

    /** Appends a new bullet with the bullet collision radius. */
    method SpawnBullet(position: Vec, direction: Vec)
      modifies this
      ensures Model() == Session.SpawnBullet(old(Model()), position, direction)
    {
      bullets := bullets + [Entity(nextId, position, BULLET_RADIUS, Bullet(direction))];
      nextId := nextId + 1;
    }

    method DeleteBullet(id: EntityId)
      modifies this
      ensures Model() == Session.DeleteBullet(old(Model()), id)
    {
      bullets := Remove(bullets, id);
    }

    /** `numAsteroids` asteroids of the largest size, the `i`-th at `spot(i)`. */
    method SpawnAsteroids(numAsteroids: int, spot: nat -> Vec)
      modifies this
      ensures Model() == Session.SpawnAsteroids(old(Model()), numAsteroids, spot)
    {
      var i := 0;
      while i < numAsteroids
        invariant 0 <= i && (i <= numAsteroids || i == 0)
        invariant Model() == Session.SpawnAsteroids(old(Model()), i, spot)
      {
        SpawnAsteroidAt(spot(i), LARGEST_ASTEROID);
        i := i + 1;
      }
    }

    /** Appends a new asteroid of the given size, with radius size x 5. */
    method SpawnAsteroidAt(position: Vec, size: int)
      modifies this
      ensures Model() == Session.SpawnAsteroidAt(old(Model()), position, size)
    {
      asteroids := asteroids + [Entity(nextId, position, size as real * ASTEROID_RADIUS_UNIT, Asteroid(size))];
      nextId := nextId + 1;
    }

    /** `std::find` over the asteroid list. */
    predicate IsAsteroid(id: EntityId): (found: bool)
      reads this
      ensures found <==> exists k :: 0 <= k < |asteroids| && asteroids[k].id == id
    {
      Session.IsAsteroid(Model(), id)
    }

    /** `std::find` over the bullet list. */
    predicate IsBullet(id: EntityId): (found: bool)
      reads this
      ensures found <==> exists k :: 0 <= k < |bullets| && bullets[k].id == id
    {
      Session.IsBullet(Model(), id)
    }

    /** A rock larger than the smallest size spawns two fragments one size
        smaller, at its position and offset by (20, 20); then it is removed. */
    method AsteroidHit(rock: Entity)
      requires rock.kind.Asteroid?
      modifies this
      ensures Model() == Session.AsteroidHit(old(Model()), rock)
    {
      var oldSize := rock.kind.size;
      if oldSize > 1 {
        var smallerSize := oldSize - 1;
        SpawnAsteroidAt(rock.pos, smallerSize);
        SpawnAsteroidAt(rock.pos.Plus(SPLIT_OFFSET), smallerSize);
      }
      DeleteAsteroid(rock.id);
    }

    method DeleteAsteroid(id: EntityId)
      modifies this
      ensures Model() == Session.DeleteAsteroid(old(Model()), id)
    {
      asteroids := Remove(asteroids, id);
    }

    /** Adjudicates the pairs the collision resolver reports, in order. */
    method UpdateCollisions(pairs: seq<(EntityId, EntityId)>)
      requires Valid()
      modifies this
      ensures Valid() && Model() == Collisions(old(Model()), pairs)
    {
      var i := 0;
      while i < |pairs|
        invariant 0 <= i <= |pairs|
        invariant Valid() && Model() == Collisions(old(Model()), pairs[..i])
      {
        DoCollision(pairs[i].0, pairs[i].1);
        assert pairs[..i + 1][..i] == pairs[..i];
        i := i + 1;
      }
      assert pairs[..i] == pairs;
    }

    /** The cooldown counter advances by one frame. */
    method BulletDelay()
      requires Valid()
      modifies this
      ensures Valid() && Model() == Session.BulletDelay(old(Model()))
    {
      SameListsOk(Model(), Session.BulletDelay(Model()));
      bulletDelay := bulletDelay + 1;
    }
  }

  /** `DoCollision` is one of its two rules, or no change. */
  lemma DoCollisionCases(before: State, a: EntityId, b: EntityId, after: State)
    requires Inv(before)
    requires var rock := AsteroidOf(before, a, b);
      && (ShipOf(before, a, b).Some? && rock.Some? ==>
            rock.value.kind.Asteroid? && after == ShipStruck(before, ShipOf(before, a, b).value, rock.value))
      && (BulletOf(before, a, b).Some? && rock.Some? ==>
            rock.value.kind.Asteroid? && after == BulletStruck(before, BulletOf(before, a, b).value, rock.value))
      && (!(ShipOf(before, a, b).Some? && rock.Some?) && !(BulletOf(before, a, b).Some? && rock.Some?) ==>
            after == before)
    ensures after == Session.DoCollision(before, a, b)
  {
  }
}
