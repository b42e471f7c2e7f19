/** What the session's operations promise: the split rule, the two
    collision rules, the firing rule and its cooldown, and what a new
    level leaves behind. */
module Rules {
  import opened Entities
  import opened Session

  /** Hitting an asteroid removes exactly that asteroid and keeps the
      others in order; a rock larger than the smallest size leaves two
      fragments one size smaller (radius five per size), the first at its
      position and the second offset by (20, 20); a smallest rock leaves
      nothing. Nothing but the asteroid list and the identity counter changes. */
  lemma AsteroidHitRule(st: State, rock: Entity)
    requires EntitiesOk(st) && rock in st.asteroids
    ensures var r := AsteroidHit(st, rock);
            var n := st.nextId;
            var size := rock.kind.size;
            var fragments :=
              if size > 1 then
                [Entity(n, rock.pos, (size - 1) as real * ASTEROID_RADIUS_UNIT, Asteroid(size - 1)),
                 Entity(n + 1, rock.pos.Plus(SPLIT_OFFSET), (size - 1) as real * ASTEROID_RADIUS_UNIT, Asteroid(size - 1))]
              else [];
            && (exists k :: 0 <= k < |st.asteroids| && st.asteroids[k] == rock &&
                            r.asteroids == st.asteroids[..k] + st.asteroids[k + 1..] + fragments)
            && |r.asteroids| == |st.asteroids| - 1 + |fragments|
            && Unchanged(st, r)
  {
    var k :| 0 <= k < |st.asteroids| && st.asteroids[k] == rock;
    assert rock.kind.Asteroid? && rock.id < st.nextId && Unique(st.asteroids);
    HitList(st, rock, k);
  }

  lemma HitList(st: State, rock: Entity, k: nat)
    requires rock.kind.Asteroid? && rock.id < st.nextId && Unique(st.asteroids)
    requires k < |st.asteroids| && st.asteroids[k] == rock
    ensures var n := st.nextId;
            var size := rock.kind.size;
            var fragments :=
              if size > 1 then
                [Entity(n, rock.pos, (size - 1) as real * ASTEROID_RADIUS_UNIT, Asteroid(size - 1)),
                 Entity(n + 1, rock.pos.Plus(SPLIT_OFFSET), (size - 1) as real * ASTEROID_RADIUS_UNIT, Asteroid(size - 1))]
              else [];
            AsteroidHit(st, rock).asteroids == st.asteroids[..k] + st.asteroids[k + 1..] + fragments
  {
    if rock.kind.size > 1 {
      HitSplitList(st, rock, k);
    } else {
      HitWholeList(st, rock, k);
    }
  }

  lemma HitSplitList(st: State, rock: Entity, k: nat)
    requires rock.kind.Asteroid? && rock.kind.size > 1 && rock.id < st.nextId && Unique(st.asteroids)
    requires k < |st.asteroids| && st.asteroids[k] == rock
    ensures AsteroidHit(st, rock).asteroids ==
              st.asteroids[..k] + st.asteroids[k + 1..] +
              [Entity(st.nextId, rock.pos, (rock.kind.size - 1) as real * ASTEROID_RADIUS_UNIT, Asteroid(rock.kind.size - 1)),
               Entity(st.nextId + 1, rock.pos.Plus(SPLIT_OFFSET), (rock.kind.size - 1) as real * ASTEROID_RADIUS_UNIT, Asteroid(rock.kind.size - 1))]
  {
    SplitHit(st, rock, k,
      [Entity(st.nextId, rock.pos, (rock.kind.size - 1) as real * ASTEROID_RADIUS_UNIT, Asteroid(rock.kind.size - 1)),
       Entity(st.nextId + 1, rock.pos.Plus(SPLIT_OFFSET), (rock.kind.size - 1) as real * ASTEROID_RADIUS_UNIT, Asteroid(rock.kind.size - 1))]);
  }

  /** The asteroid list after a split hit, for whatever fragments the split appended. */
  lemma SplitHit(st: State, rock: Entity, k: nat, fragments: seq<Entity>)
    requires rock.kind.Asteroid? && rock.kind.size > 1 && Unique(st.asteroids)
    requires k < |st.asteroids| && st.asteroids[k] == rock
    requires Split(st, rock).asteroids == st.asteroids + fragments && Absent(rock.id, fragments)
    ensures AsteroidHit(st, rock).asteroids == st.asteroids[..k] + st.asteroids[k + 1..] + fragments
  {
    assert AsteroidHit(st, rock).asteroids == Remove(st.asteroids + fragments, rock.id);
    RemoveAtAppend(st.asteroids, fragments, k);
  }

  lemma HitWholeList(st: State, rock: Entity, k: nat)
    requires rock.kind.Asteroid? && rock.kind.size <= 1 && Unique(st.asteroids)
    requires k < |st.asteroids| && st.asteroids[k] == rock
    ensures AsteroidHit(st, rock).asteroids == st.asteroids[..k] + st.asteroids[k + 1..]
  {
    assert AsteroidHit(st, rock).asteroids == Remove(st.asteroids, rock.id);
    RemoveAtAppend(st.asteroids, [], k);
    assert st.asteroids + [] == st.asteroids;
  }

  /** A ship/asteroid pair: the asteroid is hit (the split rule above), the
      bullets are untouched, and one life is lost. With lives left the ship
      stays, back at its spawn point, and the score is kept; losing the last
      life deletes the ship and starts lives and score over, which makes the
      game over once no explosion is pending. */
  lemma ShipStrikeRule(st: State, a: EntityId, b: EntityId)
    requires Inv(st)
    requires ShipOf(st, a, b).Some? && AsteroidOf(st, a, b).Some?
    ensures var rock := AsteroidOf(st, a, b).value;
            var r := DoCollision(st, a, b);
            && rock in st.asteroids && (rock.id == a || rock.id == b)
            && r.asteroids == AsteroidHit(st, rock).asteroids
            && r.bullets == st.bullets && r.bulletDelay == st.bulletDelay
            && (st.lives > 1 ==>
                  && r.lives == st.lives - 1 && r.score == st.score
                  && r.player == Some(st.player.value.(pos := st.home)))
            && (st.lives == 1 ==>
                  && r.player.None? && r.lives == STARTING_LIVES && r.score == 0
                  && (IsGameOver(r) <==> st.explosions == []))
  {
    RulesExclusive(st, a, b);
    var rock := AsteroidOf(st, a, b).value;
    var ship := ShipOf(st, a, b).value;
    var st1 := st.(lives := st.lives - 1, player := Some(ship.(pos := st.home)));
    assert rock in st.asteroids;
    assert DoCollision(st, a, b) == ShipStruck(st, ship, rock);
    HitSeesOnlyAsteroids(st1, st, rock);
  }

  /** The asteroid list a hit leaves depends on the asteroid list and the
      identity counter alone. */
  lemma HitSeesOnlyAsteroids(st: State, st': State, rock: Entity)
    requires rock.kind.Asteroid? && st.asteroids == st'.asteroids && st.nextId == st'.nextId
    ensures AsteroidHit(st, rock).asteroids == AsteroidHit(st', rock).asteroids
  {
    if rock.kind.size > 1 {
      assert Split(st, rock).asteroids == Split(st', rock).asteroids;
    }
  }

  /** A bullet/asteroid pair: one point more, the asteroid hit (the split
      rule above), and exactly that bullet removed from the bullet list;
      the ship and the lives are untouched. */
  lemma BulletStrikeRule(st: State, a: EntityId, b: EntityId)
    requires Inv(st)
    requires BulletOf(st, a, b).Some? && AsteroidOf(st, a, b).Some?
    ensures var shot := BulletOf(st, a, b).value;
            var rock := AsteroidOf(st, a, b).value;
            var r := DoCollision(st, a, b);
            && (shot == a || shot == b) && rock in st.asteroids && (rock.id == a || rock.id == b)
            && r.score == st.score + 1 && r.lives == st.lives && r.player == st.player
            && r.asteroids == AsteroidHit(st, rock).asteroids
            && (exists k :: 0 <= k < |st.bullets| && st.bullets[k].id == shot &&
                            r.bullets == st.bullets[..k] + st.bullets[k + 1..])
  {
    RulesExclusive(st, a, b);
    var shot := BulletOf(st, a, b).value;
    var rock := AsteroidOf(st, a, b).value;
    assert DoCollision(st, a, b) == BulletStruck(st, shot, rock);
    BulletStruckFacts(st, shot, rock);
  }

  lemma BulletStruckFacts(st: State, shot: EntityId, rock: Entity)
    requires EntitiesOk(st) && IsBullet(st, shot) && rock in st.asteroids
    ensures var r := BulletStruck(st, shot, rock);
            && r.score == st.score + 1 && r.lives == st.lives && r.player == st.player
            && r.asteroids == AsteroidHit(st, rock).asteroids
            && (exists k :: 0 <= k < |st.bullets| && st.bullets[k].id == shot &&
                            r.bullets == st.bullets[..k] + st.bullets[k + 1..])
  {
    var k :| 0 <= k < |st.bullets| && st.bullets[k] == Find(st.bullets, shot).value;
    HitSeesOnlyAsteroids(st.(score := st.score + 1), st, rock);
    RemoveAt(st.bullets, k);
  }

  /** Any other pair changes nothing: a pair without an asteroid (ship and
      bullet, two bullets, entities in no list), or a pair with neither the
      ship nor a bullet (two asteroids). */
  lemma NoOtherEffect(st: State, a: EntityId, b: EntityId)
    requires Inv(st)
    ensures AsteroidOf(st, a, b).None? ==> DoCollision(st, a, b) == st
    ensures ShipOf(st, a, b).None? && BulletOf(st, a, b).None? ==> DoCollision(st, a, b) == st
  {
  }

  /** An entity is at most one of the ship, a bullet and an asteroid. */
  lemma OneClassEach(st: State, id: EntityId)
    requires EntitiesOk(st)
    ensures !(IsBullet(st, id) && IsAsteroid(st, id))
    ensures st.player.Some? && st.player.value.id == id ==> !IsBullet(st, id) && !IsAsteroid(st, id)
  {
  }

  /** The firing rule: with a ship, fire pressed and the counter above 40,
      `UpdatePlayer` appends exactly three bullets at the moved ship's
      position plus the three fan directions, and resets the counter;
      otherwise the bullet list and the counter are untouched. Asteroids,
      lives and score never change here. */
  lemma VolleyRule(st: State, input: Input, motion: Entity -> Vec)
    requires Inv(st)
    ensures var r := UpdatePlayer(st, input, motion);
            && r.asteroids == st.asteroids && r.explosions == st.explosions
            && r.lives == st.lives && r.score == st.score
            && (r.player.Some? <==> st.player.Some?)
            && (Fires(st, input) ==>
                  var at := r.player.value.pos;
                  var n := st.nextId;
                  && r.bulletDelay == 0
                  && r.bullets == st.bullets + [Entity(n, at.Plus(FAN_LEFT), BULLET_RADIUS, Bullet(FAN_LEFT)),
                                                Entity(n + 1, at.Plus(FAN_CENTRE), BULLET_RADIUS, Bullet(FAN_CENTRE)),
                                                Entity(n + 2, at.Plus(FAN_RIGHT), BULLET_RADIUS, Bullet(FAN_RIGHT))])
            && (!Fires(st, input) ==> r.bullets == st.bullets && r.bulletDelay == st.bulletDelay)
  {
  }

  /** One frame moves the cooldown counter on by one, from zero after a volley. */
  lemma UpdateDelay(st: State, f: Frame)
    requires Inv(st)
    ensures Update(st, f).bulletDelay == (if Fires(st, f.input) then 0 else st.bulletDelay) + 1
  {
    VolleyRule(st, f.input, f.motion);
  }

  /** The number of frames among the commands. */
  function Frames(cmds: seq<Command>): nat {
    if cmds == [] then 0
    else Frames(cmds[..|cmds| - 1]) + (if cmds[|cmds| - 1].Play? then 1 else 0)
  }

  /** Volleys are at least 41 frames apart: after the frame that fired, the
      counter counts the frames that follow (new levels do not touch it),
      and no input can fire again within the next 40 frames. */
  lemma {:induction false} VolleysSpaced(st: State, f: Frame, cmds: seq<Command>, input: Input)
    requires Inv(st) && Fires(st, f.input) && Frames(cmds) < 40
    ensures Run(Update(st, f), cmds).bulletDelay == 1 + Frames(cmds)
    ensures !Fires(Run(Update(st, f), cmds), input)
  {
    UpdateDelay(st, f);
    CountsFrames(Update(st, f), cmds);
  }

  lemma {:induction false} CountsFrames(st: State, cmds: seq<Command>)
    requires Inv(st) && st.bulletDelay == 1 && Frames(cmds) < 40
    ensures Run(st, cmds).bulletDelay == 1 + Frames(cmds)
  {
    if cmds != [] {
      var init := cmds[..|cmds| - 1];
      CountsFrames(st, init);
      var mid := Run(st, init);
      match cmds[|cmds| - 1]
      case Play(g) =>
        UpdateDelay(mid, g);
      case StartLevel(n, spot) =>
        InitialiseLevelCounters(mid, n, spot);
    }
  }

  lemma InitialiseLevelCounters(st: State, n: int, spot: nat -> Vec)
    requires Inv(st)
    ensures var r := InitialiseLevel(st, n, spot);
            r.bulletDelay == st.bulletDelay && r.lives == st.lives && r.score == st.score
  {
    SpawnAsteroidsOk(SpawnPlayer(DeleteAllExplosions(DeleteAllAsteroids(st))), n, spot);
  }

  /** `InitialiseLevel(n)` leaves nothing of the old asteroids or
      explosions; the bullets are kept; exactly one new ship stands at its
      spawn point, with an identity no earlier entity had; and there are
      exactly `n` new asteroids (none when `n` is not positive), all of the
      largest size, the `i`-th at the `i`-th random spot. Lives, score and
      the cooldown counter are kept. The level is then in play: not
      complete when it has asteroids, and not over. */
  lemma InitialiseLevelRule(st: State, n: int, spot: nat -> Vec)
    requires Inv(st)
    ensures var r := InitialiseLevel(st, n, spot);
            var count := if n > 0 then n else 0;
            && r.bullets == st.bullets && r.explosions == []
            && r.player == Some(Entity(st.nextId, st.home, SHIP_RADIUS, Ship(0, 0)))
            && Absent(st.nextId, st.bullets) && Absent(st.nextId, st.asteroids) && Absent(st.nextId, st.explosions)
            && (st.player.Some? ==> st.player.value.id != st.nextId)
            && |r.asteroids| == count
            && (forall i :: 0 <= i < count ==>
                  r.asteroids[i] == Entity(st.nextId + 1 + i, spot(i), LARGEST_ASTEROID as real * ASTEROID_RADIUS_UNIT, Asteroid(LARGEST_ASTEROID)))
            && (forall e :: e in r.asteroids ==> Absent(e.id, st.asteroids))
            && r.lives == st.lives && r.score == st.score && r.bulletDelay == st.bulletDelay
            && (IsLevelComplete(r) <==> n <= 0)
            && !IsGameOver(r)
  {
    InitialiseLevelShape(st, n, spot);
    NextIdFresh(st);
    var r := InitialiseLevel(st, n, spot);
    FreshAfter(st.asteroids, r.asteroids, st.nextId);
    if n > 0 {
      assert r.asteroids[0] in r.asteroids;
    }
  }

  /** What a new level consists of, whatever the state it starts from. */
  lemma InitialiseLevelShape(st: State, n: int, spot: nat -> Vec)
    ensures var r := InitialiseLevel(st, n, spot);
            var count := if n > 0 then n else 0;
            && r.bullets == st.bullets && r.explosions == []
            && r.player == Some(Entity(st.nextId, st.home, SHIP_RADIUS, Ship(0, 0)))
            && |r.asteroids| == count
            && (forall i :: 0 <= i < count ==>
                  r.asteroids[i] == Entity(st.nextId + 1 + i, spot(i), LARGEST_ASTEROID as real * ASTEROID_RADIUS_UNIT, Asteroid(LARGEST_ASTEROID)))
            && r.lives == st.lives && r.score == st.score && r.bulletDelay == st.bulletDelay
  {
    var st1 := SpawnPlayer(DeleteAllExplosions(DeleteAllAsteroids(st)));
    assert st1.asteroids == [] && st1.nextId == st.nextId + 1;
    SpawnAsteroidsList(st1, n, spot);
  }

  /** Identities at or above the counter are held by nothing yet. */
  lemma NextIdFresh(st: State)
    requires EntitiesOk(st)
    ensures Absent(st.nextId, st.bullets) && Absent(st.nextId, st.asteroids) && Absent(st.nextId, st.explosions)
    ensures st.player.Some? ==> st.player.value.id != st.nextId
  {
  }

  lemma FreshAfter(s: seq<Entity>, t: seq<Entity>, n: nat)
    requires forall e :: e in s ==> e.id < n
    requires forall i :: 0 <= i < |t| ==> t[i].id > n
    ensures forall e :: e in t ==> Absent(e.id, s)
  {
    forall e | e in t ensures Absent(e.id, s) {
      var i :| 0 <= i < |t| && t[i] == e;
    }
  }

  /** `SpawnAsteroids` appends one largest asteroid per random spot, with
      consecutive new identities, and changes nothing else. */
  lemma {:induction false} SpawnAsteroidsList(st: State, n: int, spot: nat -> Vec)
    ensures var r := SpawnAsteroids(st, n, spot);
            var count := if n > 0 then n else 0;
            && |r.asteroids| == |st.asteroids| + count
            && r.asteroids[..|st.asteroids|] == st.asteroids
            && (forall i :: 0 <= i < count ==>
                  r.asteroids[|st.asteroids| + i] == Entity(st.nextId + i, spot(i), LARGEST_ASTEROID as real * ASTEROID_RADIUS_UNIT, Asteroid(LARGEST_ASTEROID)))
            && r.nextId == st.nextId + count
            && r.(asteroids := st.asteroids, nextId := st.nextId) == st
    decreases n
  {
    if n > 0 {
      SpawnAsteroidsList(st, n - 1, spot);
    }
  }

  /** A level of one largest asteroid, shot by a bullet: the asteroid is
      gone, two asteroids of size 2 take its place, the bullet is gone and
      the score is one higher. */
  lemma ShootingTheOnlyAsteroid(st: State, shot: Entity, rock: Entity)
    requires Inv(st) && st.asteroids == [rock] && rock.kind == Asteroid(3) && shot in st.bullets
    ensures var r := DoCollision(st, shot.id, rock.id);
            && |r.asteroids| == 2
            && r.asteroids[0].kind == Asteroid(2) && r.asteroids[1].kind == Asteroid(2)
            && r.asteroids[1].pos == r.asteroids[0].pos.Plus(Vec(20.0, 20.0))
            && Absent(shot.id, r.bullets) && |r.bullets| == |st.bullets| - 1
            && r.score == st.score + 1
  {
    assert rock in st.asteroids;
    assert IsBullet(st, shot.id);
    assert !IsAsteroid(st, shot.id);
    BulletStrikeRule(st, shot.id, rock.id);
    AsteroidHitRule(st, rock);
  }
}
