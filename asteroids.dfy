/** Asteroids: a ship on a toroidal board that thrusts, turns and fires
    bullets on a timer, asteroids that appear on a timer up to a maximum,
    bullets that expire, and box-shaped collisions between them.

    Coordinates are exact reals. The trigonometry (`Math.cos`, `Math.sin`,
    `Math.atan2`), the real-valued `mod` and the random draws are parameters
    of the reducers that use them. */
module Asteroids {
  import opened Helpers
  import opened Collections
  import opened Keys

  datatype Vector = Vector(x: real, y: real)

  datatype Asteroid = Asteroid(position: Vector, velocity: Vector, size: real)

  datatype Bullet = Bullet(position: Vector, velocity: Vector, spawnTime: int)

  /** A moment on the game clock, or `-Infinity` for "never". */
  datatype Moment = Never | At(t: int)

  datatype State = State(
    time: int,
    alive: bool,
    position: Vector,
    velocity: Vector,
    direction: real,
    bullets: seq<Bullet>,
    lastBulletTime: Moment,
    bulletInterval: int,
    bulletTimeToLive: int,
    asteroids: seq<Asteroid>,
    maxAsteroids: int,
    asteroidInterval: int,
    lastAsteroidTime: Moment,
    width: real,
    height: real,
    keys: set<string>)

  const Width: real := 20.0
  const Height: real := 20.0

  /** `DEFAULT_STATE`: the ship at rest in the middle of a 20x20 board, no
      bullets or asteroids, and neither timer ever started. */
  const DefaultState := State(
    time := 1, alive := true, position := Vector(Width / 2.0, Height / 2.0), velocity := Vector(0.0, 0.0),
    direction := 0.0, bullets := [], lastBulletTime := Never, bulletInterval := 5, bulletTimeToLive := 250,
    asteroids := [], maxAsteroids := 4, asteroidInterval := 250, lastAsteroidTime := Never,
    width := Width, height := Height, keys := {})

  /** `Math.PI * 2` as the double the game computes with. */
  const Tau: real := 6.283185307179586

  /** The real-valued `mod(n, d)` of JavaScript numbers, supplied by the
      caller. */
  type Wrap = (real, real) -> real

  /** `wrap` lands in `[0, d)` for every positive period. */
  ghost predicate WrapsOnto(wrap: Wrap) {
    forall a, d :: d > 0.0 ==> 0.0 <= wrap(a, d) < d
  }

  /** `wrap` leaves values already in `[0, d)` where they are. */
  ghost predicate FixesInside(wrap: Wrap) {
    forall a, d :: 0.0 <= a < d ==> wrap(a, d) == a
  }

  /** The gate `if (last + interval > time) return state`, negated: with
      `-Infinity` as the last moment it is always open, otherwise it opens
      once `time` reaches `last + interval`. */
  predicate Elapsed(last: Moment, interval: int, time: int) {
    match last
    case Never => true
    case At(t) => t + interval <= time
  }

  function SquaredNorm(v: Vector): real {
    v.x * v.x + v.y * v.y
  }

  function SquaredDistance(p: Vector, q: Vector): real {
    (p.x - q.x) * (p.x - q.x) + (p.y - q.y) * (p.y - q.y)
  }

  /** Point `p` lies strictly inside the square box of side `size` centred
      on the asteroid. */
  predicate Inside(p: Vector, a: Asteroid) {
    && p.x > a.position.x - a.size / 2.0 && p.x < a.position.x + a.size / 2.0
    && p.y > a.position.y - a.size / 2.0 && p.y < a.position.y + a.size / 2.0
  }

  /** Bullet `b` lies inside some asteroid. */
  predicate HitsAny(b: Bullet, asteroids: seq<Asteroid>) {
    exists m :: 0 <= m < |asteroids| && Inside(b.position, asteroids[m])
  }

  /** Some bullet lies inside asteroid `a`. */
  predicate HitByAny(a: Asteroid, bullets: seq<Bullet>) {
    exists k :: 0 <= k < |bullets| && Inside(bullets[k].position, a)
  }

  function BulletSurvives(asteroids: seq<Asteroid>): Bullet -> bool {
    (b: Bullet) => !HitsAny(b, asteroids)
  }

  function AsteroidSurvives(bullets: seq<Bullet>): Asteroid -> bool {
    (a: Asteroid) => !HitByAny(a, bullets)
  }

  /** What `hitAsteroid` computes: every bullet inside an asteroid and every
      asteroid with a bullet inside is removed, the rest keep their order. */
  function Shattered(s: State): (r: State)
    ensures r == s.(bullets := r.bullets, asteroids := r.asteroids)
    ensures forall k :: 0 <= k < |r.bullets| ==> r.bullets[k] in s.bullets && !HitsAny(r.bullets[k], s.asteroids)
    ensures forall m :: 0 <= m < |r.asteroids| ==> r.asteroids[m] in s.asteroids && !HitByAny(r.asteroids[m], s.bullets)
  {
    s.(bullets := Filter(s.bullets, BulletSurvives(s.asteroids)),
       asteroids := Filter(s.asteroids, AsteroidSurvives(s.bullets)))
  }

  /** The survivors of `hitAsteroid` are exactly the bullets in no asteroid
      and the asteroids holding no bullet; nothing else changes. */
  lemma ShatteredKeepsExactly(s: State, b: Bullet, a: Asteroid)
    ensures Shattered(s) == s.(bullets := Shattered(s).bullets, asteroids := Shattered(s).asteroids)
    ensures b in Shattered(s).bullets <==> b in s.bullets && !HitsAny(b, s.asteroids)
    ensures a in Shattered(s).asteroids <==> a in s.asteroids && !HitByAny(a, s.bullets)
  {
    FilterMembership(s.bullets, BulletSurvives(s.asteroids), b);
    FilterMembership(s.asteroids, AsteroidSurvives(s.bullets), a);
  }

  /** With no bullet inside any asteroid, `hitAsteroid` changes nothing. */
  lemma ShatteredNoOverlap(s: State)
    requires forall k, m :: 0 <= k < |s.bullets| && 0 <= m < |s.asteroids| ==> !Inside(s.bullets[k].position, s.asteroids[m])
    ensures Shattered(s) == s
  {
    FilterKeepsAll(s.bullets, BulletSurvives(s.asteroids));
    FilterKeepsAll(s.asteroids, AsteroidSurvives(s.bullets));
  }

  /** A bullet in the prefix of length `i + 1` hits `a` when one in the
      prefix of length `i` does or bullet `i` does. */
  lemma HitByPrefix(a: Asteroid, bullets: seq<Bullet>, i: int)
    requires 0 <= i < |bullets|
    ensures HitByAny(a, bullets[..i + 1]) <==> HitByAny(a, bullets[..i]) || Inside(bullets[i].position, a)
  {
    if Inside(bullets[i].position, a) {
      assert bullets[..i + 1][i] == bullets[i];
    }
    if HitByAny(a, bullets[..i]) {
      var k :| 0 <= k < i && Inside(bullets[..i][k].position, a);
      assert bullets[..i + 1][k] == bullets[..i][k];
    }
  }

  /** `Array.from(set.values())` after the deletions: the elements whose slot
      was not deleted, in insertion order. A deleted slot stands for a
      deleted object, since the sets hold the objects themselves. */
  method Survivors<T>(xs: seq<T>, gone: array<bool>, ghost keep: T -> bool) returns (r: seq<T>)
    requires gone.Length == |xs|
    requires forall k :: 0 <= k < |xs| ==> gone[k] == !keep(xs[k])
    ensures r == Filter(xs, keep)
  {
    r := [];
    var k := 0;
    while k < |xs|
      invariant 0 <= k <= |xs|
      invariant r == Filter(xs[..k], keep)
    {
      assert xs[..k + 1][..k] == xs[..k];
      if !gone[k] {
        r := r + [xs[k]];
      }
      k := k + 1;
    }
    assert xs[..k] == xs;
  }

  /** The inner loop of `hitAsteroid`: bullet `i` against every asteroid. */
  method MarkHits(bullets: seq<Bullet>, asteroids: seq<Asteroid>, i: int, bulletGone: array<bool>, asteroidGone: array<bool>)
    requires 0 <= i < |bullets|
    requires bulletGone.Length == |bullets| && asteroidGone.Length == |asteroids| && bulletGone != asteroidGone
    requires !bulletGone[i]
    modifies bulletGone, asteroidGone
    ensures forall k :: 0 <= k < |bullets| && k != i ==> bulletGone[k] == old(bulletGone[k])
    ensures bulletGone[i] == HitsAny(bullets[i], asteroids)
    ensures forall m :: 0 <= m < |asteroids| ==>
      asteroidGone[m] == (old(asteroidGone[m]) || Inside(bullets[i].position, asteroids[m]))
  {
    var j := 0;
    while j < |asteroids|
      invariant 0 <= j <= |asteroids|
      invariant forall k :: 0 <= k < |bullets| && k != i ==> bulletGone[k] == old(bulletGone[k])
      invariant bulletGone[i] == exists m :: 0 <= m < j && Inside(bullets[i].position, asteroids[m])
      invariant forall m :: 0 <= m < |asteroids| ==>
        asteroidGone[m] == (old(asteroidGone[m]) || (m < j && Inside(bullets[i].position, asteroids[m])))
    {
      if Inside(bullets[i].position, asteroids[j]) {
        bulletGone[i] := true;
        asteroidGone[j] := true;
      }
      j := j + 1;
    }
  }

  /** The nested loops of `hitAsteroid`: a deletion flag per bullet and per
      asteroid, set when a bullet lies inside an asteroid. */
  method MarkAll(bullets: seq<Bullet>, asteroids: seq<Asteroid>) returns (bulletGone: array<bool>, asteroidGone: array<bool>)
    ensures fresh(bulletGone) && fresh(asteroidGone)
    ensures bulletGone.Length == |bullets| && asteroidGone.Length == |asteroids|
    ensures forall k :: 0 <= k < |bullets| ==> bulletGone[k] == HitsAny(bullets[k], asteroids)
    ensures forall m :: 0 <= m < |asteroids| ==> asteroidGone[m] == HitByAny(asteroids[m], bullets)
  {
    bulletGone := new bool[|bullets|](_ => false);
    asteroidGone := new bool[|asteroids|](_ => false);
    var i := 0;
    while i < |bullets|
      invariant 0 <= i <= |bullets|
      invariant forall k :: 0 <= k < |bullets| ==> bulletGone[k] == (k < i && HitsAny(bullets[k], asteroids))
      invariant forall m :: 0 <= m < |asteroids| ==> asteroidGone[m] == HitByAny(asteroids[m], bullets[..i])
    {
      MarkHits(bullets, asteroids, i, bulletGone, asteroidGone);
      forall m | 0 <= m < |asteroids|
        ensures asteroidGone[m] == HitByAny(asteroids[m], bullets[..i + 1])
      {
        HitByPrefix(asteroids[m], bullets, i);
      }
      i := i + 1;
    }
    assert bullets[..i] == bullets;
  }

  /** `hitAsteroid`: for every bullet and every asteroid, a bullet inside
      the asteroid's box deletes both from copies of the two lists. */
  method HitAsteroid(s: State) returns (r: State)
    ensures r == Shattered(s)
  {
    var bulletGone, asteroidGone := MarkAll(s.bullets, s.asteroids);
    var newBullets := Survivors(s.bullets, bulletGone, BulletSurvives(s.asteroids));
    var newAsteroids := Survivors(s.asteroids, asteroidGone, AsteroidSurvives(s.bullets));
    r := s.(bullets := newBullets, asteroids := newAsteroids);
  }

  /** `Math.sqrt(d) < .5` for a squared distance `d`: the bullet is within
      half a unit of the ship. */
  predicate Close(p: Vector, q: Vector) {
    SquaredDistance(p, q) < 0.25
  }

  /** What `hitSelf` computes: the ship dies when some bullet is within half
      a unit of it. */
  function SelfHit(s: State): (r: State)
    ensures r == s.(alive := r.alive)
    ensures r.alive <==> s.alive && forall k :: 0 <= k < |s.bullets| ==> !Close(s.position, s.bullets[k].position)
  {
    if exists k :: 0 <= k < |s.bullets| && Close(s.position, s.bullets[k].position) then s.(alive := false) else s
  }

  /** `hitSelf`: scan the bullets and stop at the first one close to the
      ship. */
  method HitSelf(s: State) returns (r: State)
    ensures r == SelfHit(s)
  {
    var k := 0;
    while k < |s.bullets|
      invariant 0 <= k <= |s.bullets|
      invariant forall j :: 0 <= j < k ==> !Close(s.position, s.bullets[j].position)
    {
      if Close(s.position, s.bullets[k].position) {
        return s.(alive := false);
      }
      k := k + 1;
    }
    return s;
  }

  /** What `crashAsteroid` computes: the ship dies when it lies inside some
      asteroid's box. */
  function Crashed(s: State): (r: State)
    ensures r == s.(alive := r.alive)
    ensures r.alive <==> s.alive && forall m :: 0 <= m < |s.asteroids| ==> !Inside(s.position, s.asteroids[m])
  {
    if exists m :: 0 <= m < |s.asteroids| && Inside(s.position, s.asteroids[m]) then s.(alive := false) else s
  }

  /** `crashAsteroid`: scan the asteroids and stop at the first one whose box
      holds the ship. */
  method CrashAsteroid(s: State) returns (r: State)
    ensures r == Crashed(s)
  {
    var m := 0;
    while m < |s.asteroids|
      invariant 0 <= m <= |s.asteroids|
      invariant forall j :: 0 <= j < m ==> !Inside(s.position, s.asteroids[j])
    {
      if Inside(s.position, s.asteroids[m]) {
        return s.(alive := false);
      }
      m := m + 1;
    }
    return s;
  }

  /** The velocity after one unit of thrust along `heading`, before the cap. */
  function Thrust(v: Vector, heading: Vector): Vector {
    Vector(v.x + 0.01 * heading.x, v.y + 0.01 * heading.y)
  }

  /** `throttle`: with the up arrow held, thrust along the ship's direction
      (`aim` gives its cosine and sine); a speed above 1 is scaled back onto
      the unit circle by `normalise` (the `atan2`, `cos`, `sin` step). */
  function Throttle(s: State, aim: real -> Vector, normalise: Vector -> Vector): (r: State)
    ensures "ArrowUp" !in s.keys ==> r == s
    ensures "ArrowUp" in s.keys ==>
      var v := Thrust(s.velocity, aim(s.direction));
      r == s.(velocity := if SquaredNorm(v) > 1.0 then normalise(v) else v)
  {
    if "ArrowUp" !in s.keys then s
    else
      var v := Thrust(s.velocity, aim(s.direction));
      var speedSquared := SquaredNorm(v);
      if speedSquared > 1.0 then s.(velocity := normalise(v)) else s.(velocity := v)
  }

  /** When `normalise` produces unit vectors, thrust never takes the speed
      above 1. */
  lemma ThrottleCapsSpeed(s: State, aim: real -> Vector, normalise: Vector -> Vector)
    requires "ArrowUp" in s.keys
    requires forall v :: SquaredNorm(v) > 1.0 ==> SquaredNorm(normalise(v)) == 1.0
    ensures SquaredNorm(Throttle(s, aim, normalise).velocity) <= 1.0
  {
  }

  /** `rotateLeft`: with the left arrow held, turn 0.1 radians clockwise,
      wrapped into `[0, 2π)`. */
  function RotateLeft(s: State, wrap: Wrap): (r: State)
    ensures "ArrowLeft" !in s.keys ==> r == s
    ensures "ArrowLeft" in s.keys ==> r == s.(direction := wrap(s.direction - 0.1, Tau))
  {
    if "ArrowLeft" !in s.keys then s else s.(direction := wrap(s.direction - 0.1, Tau))
  }

  /** `rotateRight`: with the right arrow held, turn 0.1 radians the other
      way, wrapped into `[0, 2π)`. */
  function RotateRight(s: State, wrap: Wrap): (r: State)
    ensures "ArrowRight" !in s.keys ==> r == s
    ensures "ArrowRight" in s.keys ==> r == s.(direction := wrap(s.direction + 0.1, Tau))
  {
    if "ArrowRight" !in s.keys then s else s.(direction := wrap(s.direction + 0.1, Tau))
  }

  /** Turning keeps the heading an angle in `[0, 2π)`. */
  lemma RotateKeepsAngle(s: State, wrap: Wrap)
    requires WrapsOnto(wrap) && 0.0 <= s.direction < Tau
    ensures 0.0 <= RotateRight(RotateLeft(s, wrap), wrap).direction < Tau
  {
    var l := RotateLeft(s, wrap);
    assert 0.0 <= l.direction < Tau by {
      if "ArrowLeft" in s.keys {
        assert 0.0 <= wrap(s.direction - 0.1, Tau) < Tau;
      }
    }
    if "ArrowRight" in l.keys {
      assert 0.0 <= wrap(l.direction + 0.1, Tau) < Tau;
    }
  }

  /** The bullet `shoot` fires: six tenths of a unit ahead of the ship,
      moving with the ship plus 0.08 along the heading. */
  function Muzzle(s: State, heading: Vector): Bullet {
    Bullet(
      Vector(s.position.x + 0.6 * heading.x, s.position.y + 0.6 * heading.y),
      Vector(s.velocity.x + 0.08 * heading.x, s.velocity.y + 0.08 * heading.y),
      s.time)
  }

  /** `shoot`: once the bullet timer has run out and the space bar is held,
      append one bullet stamped with the current time and restart the
      timer. */
  function Shoot(s: State, aim: real -> Vector): (r: State)
    ensures !Elapsed(s.lastBulletTime, s.bulletInterval, s.time) || " " !in s.keys ==> r == s
    ensures Elapsed(s.lastBulletTime, s.bulletInterval, s.time) && " " in s.keys ==>
      && r == s.(bullets := r.bullets, lastBulletTime := At(s.time))
      && |r.bullets| == |s.bullets| + 1
      && r.bullets[..|s.bullets|] == s.bullets
      && r.bullets[|s.bullets|].spawnTime == s.time
  {
    if !Elapsed(s.lastBulletTime, s.bulletInterval, s.time) then s
    else if " " !in s.keys then s
    else s.(bullets := s.bullets + [Muzzle(s, aim(s.direction))], lastBulletTime := At(s.time))
  }

  /** With a positive interval, a second `shoot` in the same tick fires
      nothing: at most one bullet per tick. */
  lemma ShootOncePerTick(s: State, aim: real -> Vector, aim2: real -> Vector)
    requires s.bulletInterval > 0
    ensures |Shoot(Shoot(s, aim), aim2).bullets| <= |s.bullets| + 1
  {
    var once := Shoot(s, aim);
    if once != s {
      assert !Elapsed(once.lastBulletTime, once.bulletInterval, once.time);
    }
  }

  /** `move`: the ship advances by its velocity, wrapped onto the board. */
  function Move(s: State, wrap: Wrap): (r: State)
    ensures r == s.(position := r.position)
    ensures r.position == Vector(wrap(s.position.x + s.velocity.x, s.width), wrap(s.position.y + s.velocity.y, s.height))
  {
    s.(position := Vector(wrap(s.position.x + s.velocity.x, s.width), wrap(s.position.y + s.velocity.y, s.height)))
  }

  /** `moveBullets`: each bullet advances by its own velocity, wrapped onto
      the board; order, velocities and spawn times are kept. */
  function MoveBullets(s: State, wrap: Wrap): (r: State)
    ensures r == s.(bullets := r.bullets) && |r.bullets| == |s.bullets|
    ensures forall k :: 0 <= k < |s.bullets| ==>
      var b := s.bullets[k];
      r.bullets[k] == b.(position := Vector(wrap(b.position.x + b.velocity.x, s.width), wrap(b.position.y + b.velocity.y, s.height)))
  {
    s.(bullets := seq(|s.bullets|, k requires 0 <= k < |s.bullets| =>
      var b := s.bullets[k];
      b.(position := Vector(wrap(b.position.x + b.velocity.x, s.width), wrap(b.position.y + b.velocity.y, s.height)))))
  }

  /** `moveAsteroids`: each asteroid advances by its own velocity, wrapped
      onto the board; order, velocities and sizes are kept. */
  function MoveAsteroids(s: State, wrap: Wrap): (r: State)
    ensures r == s.(asteroids := r.asteroids) && |r.asteroids| == |s.asteroids|
    ensures forall m :: 0 <= m < |s.asteroids| ==>
      var a := s.asteroids[m];
      r.asteroids[m] == a.(position := Vector(wrap(a.position.x + a.velocity.x, s.width), wrap(a.position.y + a.velocity.y, s.height)))
  {
    s.(asteroids := seq(|s.asteroids|, m requires 0 <= m < |s.asteroids| =>
      var a := s.asteroids[m];
      a.(position := Vector(wrap(a.position.x + a.velocity.x, s.width), wrap(a.position.y + a.velocity.y, s.height)))))
  }

  predicate OnBoard(p: Vector, width: real, height: real) {
    0.0 <= p.x < width && 0.0 <= p.y < height
  }

  /** A ship at rest on the board stays where it is. */
  lemma MoveAtRest(s: State, wrap: Wrap)
    requires FixesInside(wrap)
    requires OnBoard(s.position, s.width, s.height) && s.velocity == Vector(0.0, 0.0)
    ensures Move(s, wrap) == s
  {
    assert wrap(s.position.x + 0.0, s.width) == s.position.x;
    assert wrap(s.position.y + 0.0, s.height) == s.position.y;
  }

  /** The four `Math.random()` draws of `spawnAsteroid`, in call order: the
      side, the offset along it, and the two velocity components. */
  datatype SpawnDraws = SpawnDraws(side: real, along: real, vx: real, vy: real)

  /** The asteroid `spawnAsteroid` creates from its draws: on the top edge
      when the first draw exceeds one half, on the left edge otherwise. */
  function NewAsteroid(s: State, d: SpawnDraws): Asteroid {
    var position := if d.side > 0.5 then Vector(d.along * s.width, 0.0) else Vector(0.0, d.along * s.height);
    Asteroid(position, Vector(0.1 * d.vx, 0.1 * d.vy), 1.5)
  }

  /** `spawnAsteroid`: once the asteroid timer has run out and fewer than
      the maximum are on the board, append one asteroid and restart the
      timer. */
  function SpawnAsteroid(s: State, d: SpawnDraws): (r: State)
    ensures !Elapsed(s.lastAsteroidTime, s.asteroidInterval, s.time) || |s.asteroids| >= s.maxAsteroids ==> r == s
    ensures Elapsed(s.lastAsteroidTime, s.asteroidInterval, s.time) && |s.asteroids| < s.maxAsteroids ==>
      && r == s.(asteroids := r.asteroids, lastAsteroidTime := At(s.time))
      && |r.asteroids| == |s.asteroids| + 1
      && r.asteroids[..|s.asteroids|] == s.asteroids
      && r.asteroids[|s.asteroids|] == NewAsteroid(s, d)
  {
    if !Elapsed(s.lastAsteroidTime, s.asteroidInterval, s.time) then s
    else if |s.asteroids| >= s.maxAsteroids then s
    else s.(lastAsteroidTime := At(s.time), asteroids := s.asteroids + [NewAsteroid(s, d)])
  }

  /** Spawning never pushes the count past the maximum. */
  lemma SpawnRespectsMax(s: State, d: SpawnDraws)
    requires |s.asteroids| <= s.maxAsteroids
    ensures |SpawnAsteroid(s, d).asteroids| <= s.maxAsteroids
  {
  }

  /** With draws in `[0, 1)`, a new asteroid starts on the board's edge. */
  lemma NewAsteroidOnBoard(s: State, d: SpawnDraws)
    requires s.width > 0.0 && s.height > 0.0
    requires 0.0 <= d.along < 1.0
    ensures OnBoard(NewAsteroid(s, d).position, s.width, s.height)
  {
    var p := NewAsteroid(s, d).position;
    if d.side > 0.5 {
      assert p == Vector(d.along * s.width, 0.0);
      ScaledBelow(d.along, s.width, p.x);
    } else {
      assert p == Vector(0.0, d.along * s.height);
      ScaledBelow(d.along, s.height, p.y);
    }
  }

  /** A fraction in `[0, 1)` of a positive length stays below it. */
  lemma ScaledBelow(f: real, w: real, p: real)
    requires 0.0 <= f < 1.0 && w > 0.0 && p == f * w
    ensures 0.0 <= p < w
  {
    MulNonNegative(f, w);
    MulPositive(1.0 - f, w);
    assert (1.0 - f) * w == w - f * w;
  }

  function BulletLives(time: int, ttl: int): Bullet -> bool {
    (b: Bullet) => b.spawnTime + ttl > time
  }

  /** `despawnBullets`: keep the bullets younger than their time to live, in
      order; a bullet goes at the tick its age reaches the limit. */
  function DespawnBullets(s: State): (r: State)
    ensures r == s.(bullets := r.bullets)
    ensures forall k :: 0 <= k < |r.bullets| ==> r.bullets[k].spawnTime + s.bulletTimeToLive > s.time
  {
    s.(bullets := Filter(s.bullets, BulletLives(s.time, s.bulletTimeToLive)))
  }

  /** A bullet survives `despawnBullets` exactly when it was there and is
      still young. */
  lemma DespawnKeepsExactly(s: State, b: Bullet)
    ensures b in DespawnBullets(s).bullets <==> b in s.bullets && b.spawnTime + s.bulletTimeToLive > s.time
  {
    FilterMembership(s.bullets, BulletLives(s.time, s.bulletTimeToLive), b);
  }

  /** `reset`: a dead ship restarts the game when the space bar is held. */
  function Reset(s: State): (r: State)
    ensures !s.alive && " " in s.keys ==> r == DefaultState
    ensures s.alive || " " !in s.keys ==> r == s
  {
    if !s.alive && " " in s.keys then DefaultState else s
  }

  /** `tick`: the clock runs only while the ship is alive. */
  function Tick(s: State): (r: State)
    ensures s.alive ==> r == s.(time := s.time + 1)
    ensures !s.alive ==> r == s
  {
    if !s.alive then s else s.(time := s.time + 1)
  }

  /** `handleInput`: the state takes the set of keys held after the events
      so far, which is every key whose latest event presses it. */
  function HandleInput(s: State, events: seq<KeyEvent>): (r: State)
    ensures r == s.(keys := r.keys)
    ensures forall k :: k in r.keys <==> exists i :: LatestIsDown(events, k, i)
  {
    HeldExactly(events);
    s.(keys := Held(events))
  }

  /** The part of validity that does not depend on positions. */
  predicate Sound(s: State) {
    && s.width > 0.0 && s.height > 0.0
    && |s.asteroids| <= s.maxAsteroids
    && (forall k :: 0 <= k < |s.bullets| ==> s.bullets[k].spawnTime <= s.time)
  }

  /** What a pass maintains: a board of positive size, no more asteroids
      than the maximum, no bullet from the future, and everything on the
      board. */
  predicate Valid(s: State) {
    && Sound(s)
    && OnBoard(s.position, s.width, s.height)
    && (forall k :: 0 <= k < |s.bullets| ==> OnBoard(s.bullets[k].position, s.width, s.height))
    && (forall m :: 0 <= m < |s.asteroids| ==> OnBoard(s.asteroids[m].position, s.width, s.height))
  }

  lemma DefaultStateValid()
    ensures Valid(DefaultState)
  {
  }

  /** Dropping bullets keeps every remaining one from the past. */
  lemma FilterKeepsPast(bullets: seq<Bullet>, keep: Bullet -> bool, time: int)
    requires forall k :: 0 <= k < |bullets| ==> bullets[k].spawnTime <= time
    ensures forall k :: 0 <= k < |Filter(bullets, keep)| ==> Filter(bullets, keep)[k].spawnTime <= time
  {
    var r := Filter(bullets, keep);
    forall k | 0 <= k < |r|
      ensures r[k].spawnTime <= time
    {
      var i :| 0 <= i < |bullets| && bullets[i] == r[k];
    }
  }

  /** Input, reset, steering and shooting keep the state sound. */
  lemma SteerSound(s: State, events: seq<KeyEvent>, aim: real -> Vector, normalise: Vector -> Vector, wrap: Wrap)
    requires Sound(s)
    ensures Sound(Shoot(RotateRight(RotateLeft(Throttle(Reset(HandleInput(s, events)), aim, normalise), wrap), wrap), aim))
  {
    var s1 := Reset(HandleInput(s, events));
    assert Sound(s1);
    var s2 := RotateRight(RotateLeft(Throttle(s1, aim, normalise), wrap), wrap);
    assert Sound(s2);
  }

  /** Collisions, bullet expiry and spawning keep the state sound. */
  lemma CollideSound(s: State, d: SpawnDraws)
    requires Sound(s)
    ensures Sound(SpawnAsteroid(DespawnBullets(Crashed(SelfHit(Shattered(s)))), d))
  {
    var s3b := Shattered(s);
    FilterKeepsPast(s.bullets, BulletSurvives(s.asteroids), s.time);
    assert Sound(s3b);
    var s3 := Crashed(SelfHit(s3b));
    assert Sound(s3);
    FilterKeepsPast(s3.bullets, BulletLives(s3.time, s3.bulletTimeToLive), s3.time);
    assert Sound(DespawnBullets(s3));
  }

  /** The first part of a pass: input, reset, steering, shooting,
      collisions, bullet expiry and asteroid spawning. It keeps the state
      sound. */
  function Prepare(s: State, events: seq<KeyEvent>, aim: real -> Vector, normalise: Vector -> Vector, wrap: Wrap, d: SpawnDraws): (r: State)
    ensures Sound(s) ==> Sound(r)
  {
    var s1 := Reset(HandleInput(s, events));
    var s2 := Shoot(RotateRight(RotateLeft(Throttle(s1, aim, normalise), wrap), wrap), aim);
    var r := SpawnAsteroid(DespawnBullets(Crashed(SelfHit(Shattered(s2)))), d);
    assert Sound(s) ==> Sound(r) by {
      if Sound(s) {
        SteerSound(s, events, aim, normalise, wrap);
        CollideSound(s2, d);
      }
    }
    r
  }

  /** The last part of a pass: everything moves, then the clock ticks. Given
      a `mod` that lands on the board, everything ends up on it. */
  function Advance(s: State, wrap: Wrap): (r: State)
    ensures Sound(s) && WrapsOnto(wrap) ==> Valid(r)
  {
    var r := Tick(MoveAsteroids(MoveBullets(Move(s, wrap), wrap), wrap));
    assert Sound(s) && WrapsOnto(wrap) ==> Valid(r) by {
      if Sound(s) && WrapsOnto(wrap) {
        var s5 := Move(s, wrap);
        assert OnBoard(s5.position, s5.width, s5.height) by {
          assert 0.0 <= wrap(s.position.x + s.velocity.x, s.width) < s.width;
          assert 0.0 <= wrap(s.position.y + s.velocity.y, s.height) < s.height;
        }
        var s6 := MoveBullets(s5, wrap);
        forall k | 0 <= k < |s6.bullets|
          ensures OnBoard(s6.bullets[k].position, s6.width, s6.height)
        {
          var b := s5.bullets[k];
          assert 0.0 <= wrap(b.position.x + b.velocity.x, s5.width) < s5.width;
          assert 0.0 <= wrap(b.position.y + b.velocity.y, s5.height) < s5.height;
        }
        var s7 := MoveAsteroids(s6, wrap);
        forall m | 0 <= m < |s7.asteroids|
          ensures OnBoard(s7.asteroids[m].position, s7.width, s7.height)
        {
          var a := s6.asteroids[m];
          assert 0.0 <= wrap(a.position.x + a.velocity.x, s6.width) < s6.width;
          assert 0.0 <= wrap(a.position.y + a.velocity.y, s6.height) < s6.height;
        }
      }
    }
    r
  }

  /** One pass of the game's pipeline, in its declared order. Every pass
      keeps the state valid, given a `mod` that lands on the board. */
  function Pass(s: State, events: seq<KeyEvent>, aim: real -> Vector, normalise: Vector -> Vector, wrap: Wrap, d: SpawnDraws): (r: State)
    ensures Valid(s) && WrapsOnto(wrap) ==> Valid(r)
  {
    Advance(Prepare(s, events, aim, normalise, wrap, d), wrap)
  }

  /** The collision example of the game's tests: a bullet at (1.5, 3) inside
      the size-2 asteroid at (2, 3) removes both. */
  lemma CollisionExample()
    ensures var s := DefaultState.(
              asteroids := [Asteroid(Vector(2.0, 3.0), Vector(0.0, 0.0), 2.0)],
              bullets := [Bullet(Vector(1.5, 3.0), Vector(0.0, 0.0), 0)]);
      Shattered(s) == s.(asteroids := [], bullets := [])
  {
    var a := Asteroid(Vector(2.0, 3.0), Vector(0.0, 0.0), 2.0);
    var b := Bullet(Vector(1.5, 3.0), Vector(0.0, 0.0), 0);
    assert Inside(b.position, a);
    assert HitsAny(b, [a]) by {
      assert [a][0] == a;
    }
    assert HitByAny(a, [b]) by {
      assert [b][0] == b;
    }
  }
}
